/**
 What the built-in registry answers: every canonical name round-trips, the two Torque
 aliases resolve one way only, names `TypeMap` merely declares are unknown, codes
 nobody registered fall back to their decimal form, and the five category predicates
 partition the registered codes.

 Where two registrations might share a code (the `ColumnTypes` and platform codes are
 parameters), the facts that depend on it require `DistinctRegCodes` of the table.
 */
module BuiltinFacts {
  import opened Optional
  import Ascii
  import Decimal
  import opened TypeMap
  import opened Registration
  import opened JdbcTypes
  import opened BuiltinTypes
  import Join

  /** The steps before the Torque aliases; the aliases sit right after them. */
  function BeforeAliases(v: VendorCodes, p: Platform): seq<Step> {
    StandardTypes + OracleTypes(v) + Java14Types(p)
  }

  /** The Torque aliases sit right after the JDK 1.4 registrations. */
  lemma AliasPositions(v: VendorCodes, p: Platform)
    ensures |BeforeAliases(v, p)| + 1 < |Table(v, p)|
    ensures Table(v, p)[|BeforeAliases(v, p)|] == Alias("BOOLEANINT", TINYINT)
    ensures Table(v, p)[|BeforeAliases(v, p)| + 1] == Alias("BOOLEANCHAR", CHAR)
  {
    assert Table(v, p) == BeforeAliases(v, p) + TorqueAliases + NationalTypes(v);
  }

  /** The table starts with the 28 standard registrations. */
  lemma StandardPrefix(v: VendorCodes, p: Platform)
    ensures |StandardTypes| == 28
    ensures forall i :: 0 <= i < 28 ==> Table(v, p)[i] == StandardTypes[i]
  {
  }

  lemma StandardEntries()
    ensures StandardTypes[0] == Reg(ARRAY, "ARRAY", Special)
    ensures StandardTypes[4] == Reg(BLOB, "BLOB", Binary)
    ensures StandardTypes[5] == Reg(CHAR, "CHAR", Textual)
    ensures StandardTypes[17] == Reg(NUMERIC, "NUMERIC", Numeric)
    ensures StandardTypes[24] == Reg(TIMESTAMP, "TIMESTAMP", DateTime)
    ensures StandardTypes[25] == Reg(TINYINT, "TINYINT", Numeric)
    ensures StandardTypes[27] == Reg(VARCHAR, "VARCHAR", Textual)
  {
  }

  // ---------------------------------------------------------------------------
  // Codes of the table
  // ---------------------------------------------------------------------------

  const AtoCCodes: set<int> := {ARRAY, BIGINT, BINARY, BIT, BLOB, CHAR, CLOB}
  const DtoJCodes: set<int> := {DATE, DECIMAL, DISTINCT, DOUBLE, FLOAT, INTEGER, JAVA_OBJECT}
  const LtoRCodes: set<int> := {LONGVARBINARY, LONGVARCHAR, NULL, NUMERIC, OTHER, REAL, REF}
  const StoVCodes: set<int> := {SMALLINT, STRUCT, TIME, TIMESTAMP, TINYINT, VARBINARY, VARCHAR}

  /** The `java.sql.Types` codes the table registers. */
  const StandardCodes: set<int> := AtoCCodes + DtoJCodes + LtoRCodes + StoVCodes

  /** The codes the table takes from its parameters. */
  function VendorCodeSet(v: VendorCodes, p: Platform): set<int> {
    {v.oracleTimestampTz, v.oracleTimestampLtz, v.sqlXml, v.nChar, v.nClob, v.nVarchar, v.longNVarchar} +
    (if p.supportsJava14JdbcTypes then {p.booleanTypeCode, p.datalinkTypeCode} else {})
  }

  lemma StandardAtoCCodes()
    ensures DistinctRegCodes(StandardAtoC) && CodesWithin(StandardAtoC, AtoCCodes)
  {
  }

  lemma StandardDtoJCodes()
    ensures DistinctRegCodes(StandardDtoJ) && CodesWithin(StandardDtoJ, DtoJCodes)
  {
  }

  lemma StandardLtoRCodes()
    ensures DistinctRegCodes(StandardLtoR) && CodesWithin(StandardLtoR, LtoRCodes)
  {
  }

  lemma StandardStoVCodes()
    ensures DistinctRegCodes(StandardStoV) && CodesWithin(StandardStoV, StoVCodes)
  {
  }

  lemma StandardFirstHalfCodes()
    ensures DistinctRegCodes(StandardAtoC + StandardDtoJ)
    ensures CodesWithin(StandardAtoC + StandardDtoJ, AtoCCodes + DtoJCodes)
  {
    StandardAtoCCodes();
    StandardDtoJCodes();
    DistinctCodesAppend(StandardAtoC, StandardDtoJ, AtoCCodes, DtoJCodes);
  }

  lemma StandardSecondHalfCodes()
    ensures DistinctRegCodes(StandardLtoR + StandardStoV)
    ensures CodesWithin(StandardLtoR + StandardStoV, LtoRCodes + StoVCodes)
  {
    StandardLtoRCodes();
    StandardStoVCodes();
    DistinctCodesAppend(StandardLtoR, StandardStoV, LtoRCodes, StoVCodes);
  }

  lemma StandardCodeHalvesDisjoint()
    ensures (AtoCCodes + DtoJCodes) !! (LtoRCodes + StoVCodes)
  {
  }

  /** The `java.sql.Types` codes of the table never repeat. */
  lemma StandardCodesDistinct()
    ensures DistinctRegCodes(StandardTypes) && CodesWithin(StandardTypes, StandardCodes)
  {
    StandardFirstHalfCodes();
    StandardSecondHalfCodes();
    StandardCodeHalvesDisjoint();
    DistinctCodesAppend(StandardAtoC + StandardDtoJ, StandardLtoR + StandardStoV,
      AtoCCodes + DtoJCodes, LtoRCodes + StoVCodes);
    assert StandardTypes == (StandardAtoC + StandardDtoJ) + (StandardLtoR + StandardStoV);
    assert StandardCodes == AtoCCodes + DtoJCodes + (LtoRCodes + StoVCodes);
  }

  lemma LaterCodes(v: VendorCodes, p: Platform)
    ensures CodesWithin(LaterTypes(v, p), VendorCodeSet(v, p))
  {
  }

  /** Every code the built-in table registers is a standard code or a parameter. */
  lemma TableCodes(v: VendorCodes, p: Platform)
    ensures CodesWithin(Table(v, p), StandardCodes + VendorCodeSet(v, p))
  {
    StandardCodesDistinct();
    LaterCodes(v, p);
    CodesWithinAppend(StandardTypes, LaterTypes(v, p), StandardCodes, VendorCodeSet(v, p));
  }

  /**
   Codes as the JDK and the Oracle driver define them, on a JDK with the JDBC 3 types:
   a choice of the parameters under which no two registrations share a code.
   */
  const SampleVendorCodes: VendorCodes := VendorCodes(-101, -102, 2009, -15, 2011, -9, -16)
  const SamplePlatform: Platform := Platform(true, 16, 70)

  lemma SampleLaterCodes()
    ensures DistinctRegCodes(LaterTypes(SampleVendorCodes, SamplePlatform))
  {
  }

  lemma SampleCodesDisjointFirstHalf()
    ensures AtoCCodes + DtoJCodes !! VendorCodeSet(SampleVendorCodes, SamplePlatform)
  {
  }

  lemma SampleCodesDisjointSecondHalf()
    ensures LtoRCodes + StoVCodes !! VendorCodeSet(SampleVendorCodes, SamplePlatform)
  {
  }

  lemma SampleCodesDisjoint()
    ensures StandardCodes !! VendorCodeSet(SampleVendorCodes, SamplePlatform)
  {
    SampleCodesDisjointFirstHalf();
    SampleCodesDisjointSecondHalf();
    assert StandardCodes == AtoCCodes + DtoJCodes + (LtoRCodes + StoVCodes);
  }

  lemma SampleCodesDistinct()
    ensures DistinctRegCodes(Table(SampleVendorCodes, SamplePlatform))
  {
    var v, p := SampleVendorCodes, SamplePlatform;
    StandardCodesDistinct();
    SampleLaterCodes();
    SampleCodesDisjoint();
    LaterCodes(v, p);
    DistinctCodesAppend(StandardTypes, LaterTypes(v, p), StandardCodes, VendorCodeSet(v, p));
  }

  // ---------------------------------------------------------------------------
  // Name lookups
  // ---------------------------------------------------------------------------

  lemma TableNamesNonEmpty()
    ensures "" !in TableNames
  {
  }

  /**
   Every registered name of the built-in table looks up its code, in upper and in lower
   case, on every platform and whatever the vendor codes are.
   */
  lemma BuiltinNameLookup(v: VendorCodes, p: Platform, i: int)
    requires 0 <= i < |Table(v, p)| && Table(v, p)[i].Reg?
    ensures JdbcTypeCode(Builtin(v, p), Table(v, p)[i].name) == Some(Table(v, p)[i].code)
    ensures JdbcTypeCode(Builtin(v, p), Ascii.ToLower(Table(v, p)[i].name)) == Some(Table(v, p)[i].code)
  {
    TableKeysUnique(v, p);
    var key := Key(Table(v, p)[i]);
    assert key == Table(v, p)[i].name;
    assert key in TableNames;
    Ascii.ToUpperOfNoLower(key);
    UniqueKeyLookup(Table(v, p), i);
    CaseInsensitiveLookup(Builtin(v, p), key);
  }

  /**
   When no code is registered twice, the code of every registered built-in name is
   described by that name again, so name to code to name is the identity.
   */
  lemma BuiltinCanonicalRoundTrip(v: VendorCodes, p: Platform, i: int)
    requires DistinctRegCodes(Table(v, p))
    requires 0 <= i < |Table(v, p)| && Table(v, p)[i].Reg?
    ensures JdbcTypeCode(Builtin(v, p), Table(v, p)[i].name) == Some(Table(v, p)[i].code)
    ensures JdbcTypeName(Builtin(v, p), Table(v, p)[i].code) == Table(v, p)[i].name
    ensures JdbcTypeName(Builtin(v, p), JdbcTypeCode(Builtin(v, p), Table(v, p)[i].name).value) == Table(v, p)[i].name
  {
    TableKeysUnique(v, p);
    assert Name(Table(v, p)[i]) in TableNames;
    TableNamesNonEmpty();
    CanonicalRoundTrip(Table(v, p), i);
  }

  /** The Torque names resolve to the codes of TINYINT and CHAR. */
  lemma TorqueAliasesResolve(v: VendorCodes, p: Platform)
    ensures JdbcTypeCode(Builtin(v, p), "BOOLEANINT") == Some(TINYINT)
    ensures JdbcTypeCode(Builtin(v, p), "BOOLEANCHAR") == Some(CHAR)
  {
    AliasPositions(v, p);
    TableKeysUnique(v, p);
    var k := |BeforeAliases(v, p)|;
    assert Ascii.NoLower("BOOLEANINT") && Ascii.NoLower("BOOLEANCHAR");
    UniqueKeyLookup(Table(v, p), k);
    UniqueKeyLookup(Table(v, p), k + 1);
  }

  /** The alias targets keep their own names: TINYINT and CHAR are still described as such. */
  lemma TorqueTargetsKeepNames(v: VendorCodes, p: Platform)
    requires DistinctRegCodes(Table(v, p))
    ensures JdbcTypeName(Builtin(v, p), TINYINT) == "TINYINT"
    ensures JdbcTypeName(Builtin(v, p), CHAR) == "CHAR"
  {
    StandardPrefix(v, p);
    StandardEntries();
    BuiltinCanonicalRoundTrip(v, p, 25);
    BuiltinCanonicalRoundTrip(v, p, 5);
  }

  /** Describing what an alias looks up gives the target's name, not the alias. */
  lemma TorqueAliasesDescribeTargets(v: VendorCodes, p: Platform)
    requires DistinctRegCodes(Table(v, p))
    ensures forall c :: JdbcTypeCode(Builtin(v, p), "BOOLEANINT") == Some(c) ==> JdbcTypeName(Builtin(v, p), c) == "TINYINT"
    ensures forall c :: JdbcTypeCode(Builtin(v, p), "BOOLEANCHAR") == Some(c) ==> JdbcTypeName(Builtin(v, p), c) == "CHAR"
  {
    TorqueAliasesResolve(v, p);
    TorqueTargetsKeepNames(v, p);
  }

  lemma AliasKeysAreNotNumbers()
    ensures Decimal.ParseInt("BOOLEANINT") == None
    ensures Decimal.ParseInt("BOOLEANCHAR") == None
  {
  }

  /** No code at all is described as BOOLEANINT or BOOLEANCHAR: the aliases are one-way. */
  lemma TorqueAliasesOneWay(v: VendorCodes, p: Platform, c: int)
    ensures JdbcTypeName(Builtin(v, p), c) != "BOOLEANINT"
    ensures JdbcTypeName(Builtin(v, p), c) != "BOOLEANCHAR"
  {
    AliasPositions(v, p);
    TableKeysUnique(v, p);
    AliasKeysAreNotNumbers();
    AliasNeverDescribed(Table(v, p), |BeforeAliases(v, p)|, c);
    AliasNeverDescribed(Table(v, p), |BeforeAliases(v, p)| + 1, c);
  }

  /** Only names of the table are known: any name that looks up a code is one of them. */
  lemma KnownNamesAreTableNames(v: VendorCodes, p: Platform, typeName: string)
    ensures JdbcTypeCode(Builtin(v, p), typeName).Some? ==> Ascii.ToUpper(typeName) in TableNames
  {
    TableKeysUnique(v, p);
    ReplayNameKeys(Table(v, p), Ascii.ToUpper(typeName));
  }

  lemma StandardNamesNotDeclaredOnly()
    ensures StandardNames !! DeclaredOnlyNames
  {
  }

  lemma LaterNamesNotDeclaredOnly()
    ensures LaterNames !! DeclaredOnlyNames
  {
  }

  /**
   The names `TypeMap` declares but never registers (GEOMETRY, UUID, ...) are unknown
   to `getJdbcTypeCode`, in any letter case.
   */
  lemma DeclaredOnlyNamesUnknown(v: VendorCodes, p: Platform, typeName: string)
    requires Ascii.ToUpper(typeName) in DeclaredOnlyNames
    ensures JdbcTypeCode(Builtin(v, p), typeName) == None
  {
    KnownNamesAreTableNames(v, p, typeName);
    StandardNamesNotDeclaredOnly();
    LaterNamesNotDeclaredOnly();
  }

  /**
   The description of every registered code is a name `getJdbcTypeCode` knows: the
   code-to-name direction never produces a name the other direction cannot resolve.
   */
  lemma DescriptionsAreKnownNames(v: VendorCodes, p: Platform, c: int)
    requires c in Builtin(v, p).codeToName
    ensures JdbcTypeCode(Builtin(v, p), JdbcTypeName(Builtin(v, p), c)).Some?
  {
    ReplayConsistent(Table(v, p));
    ReplayCodeNames(Table(v, p), c);
    var i :| 0 <= i < |Table(v, p)| && Table(v, p)[i].Reg? && Table(v, p)[i].code == c &&
      Builtin(v, p).codeToName[c] == Ascii.ToUpper(Table(v, p)[i].name);
    TableKeysUnique(v, p);
    assert Name(Table(v, p)[i]) in TableNames;
    TableNamesNonEmpty();
    DescribedNameIsKnown(Builtin(v, p), c);
  }

  /** Every name in `names` is made of upper-case letters and underscores. */
  predicate TypeNameSet(names: set<string>) {
    forall n :: n in names ==> IsTypeName(n)
  }

  lemma TypeNameSetWithin(a: set<string>, b: set<string>)
    requires TypeNameSet(b) && a <= b
    ensures TypeNameSet(a)
  {
  }

  lemma FirstGroupsAreTypeNames()
    ensures TypeNameSet(AtoCNames + DtoJNames)
  {
  }

  lemma LastGroupsAreTypeNames()
    ensures TypeNameSet(LtoRNames + StoVNames)
  {
  }

  lemma StandardNamesAreTypeNames()
    ensures TypeNameSet(StandardNames)
  {
    FirstGroupsAreTypeNames();
    LastGroupsAreTypeNames();
    StandardGroupsCovered();
    TypeNameSetWithin(StandardNames, AtoCNames + DtoJNames + (LtoRNames + StoVNames));
  }

  lemma LaterNamesAreTypeNames()
    ensures TypeNameSet(LaterNames)
  {
  }

  /** Every name the built-in table stores for a code is a type name. */
  lemma BuiltinStoredNamesAreTypeNames(v: VendorCodes, p: Platform)
    ensures forall c :: c in Builtin(v, p).codeToName ==> IsTypeName(Builtin(v, p).codeToName[c])
  {
    TableKeysUnique(v, p);
    StandardNamesAreTypeNames();
    LaterNamesAreTypeNames();
    forall c | c in Builtin(v, p).codeToName
      ensures IsTypeName(Builtin(v, p).codeToName[c])
    {
      ReplayCodeNames(Table(v, p), c);
      var i :| 0 <= i < |Table(v, p)| && Table(v, p)[i].Reg? && Table(v, p)[i].code == c &&
        Builtin(v, p).codeToName[c] == Ascii.ToUpper(Table(v, p)[i].name);
      assert Key(Table(v, p)[i]) == Name(Table(v, p)[i]);
      assert Name(Table(v, p)[i]) in TableNames;
    }
  }

  /**
   For the built-in table, `getJdbcTypeName` gives a number exactly for the codes the
   table does not register, and that number is the code itself.
   */
  lemma BuiltinDescriptionRevealsRegistration(v: VendorCodes, p: Platform, code: int)
    ensures Decimal.ParseInt(JdbcTypeName(Builtin(v, p), code)).Some? <==> code !in Builtin(v, p).codeToName
    ensures code !in Builtin(v, p).codeToName ==> Decimal.ParseInt(JdbcTypeName(Builtin(v, p), code)) == Some(code)
  {
    BuiltinStoredNamesAreTypeNames(v, p);
    NameForCodeRevealsRegistration(Builtin(v, p), code);
  }

  // ---------------------------------------------------------------------------
  // Code lookups and categories
  // ---------------------------------------------------------------------------

  /**
   With distinct codes, exactly one of the five predicates holds for a registered code
   and none for any other code.
   */
  lemma BuiltinCategoriesPartition(v: VendorCodes, p: Platform, c: int)
    requires DistinctRegCodes(Table(v, p))
    ensures PredicatesHolding(Builtin(v, p), c) == (if c in Builtin(v, p).codeToName then 1 else 0)
  {
    ReplayPartition(Table(v, p), c);
  }

  /**
   A code the table never registers has no category, and `getJdbcTypeName` gives its
   decimal form.
   */
  lemma UnregisteredCodeFallback(v: VendorCodes, p: Platform, c: int)
    requires c !in StandardCodes + VendorCodeSet(v, p)
    ensures c !in Builtin(v, p).codeToName
    ensures JdbcTypeName(Builtin(v, p), c) == Decimal.IntToString(c)
    ensures PredicatesHolding(Builtin(v, p), c) == 0
  {
    TableCodes(v, p);
    UnusedCode(Table(v, p), StandardCodes + VendorCodeSet(v, p), c);
  }

  lemma UnknownCodeExample(v: VendorCodes, p: Platform)
    requires 99999 !in VendorCodeSet(v, p)
    ensures JdbcTypeName(Builtin(v, p), 99999) == "99999"
  {
    UnusedStandardCode();
    UnregisteredCodeFallback(v, p, 99999);
    DecimalOf99999();
  }

  lemma UnusedStandardCode()
    ensures 99999 !in StandardCodes
  {
    assert 99999 !in AtoCCodes + DtoJCodes;
    assert 99999 !in LtoRCodes + StoVCodes;
    assert StandardCodes == AtoCCodes + DtoJCodes + (LtoRCodes + StoVCodes);
  }

  lemma DecimalOf99999()
    ensures Decimal.IntToString(99999) == "99999"
  {
  }

  /** Each category has a standard member, whatever the parameters. */
  lemma StandardCategoryExamples(v: VendorCodes, p: Platform)
    ensures IsNumericType(Builtin(v, p), NUMERIC)
    ensures IsDateTimeType(Builtin(v, p), TIMESTAMP)
    ensures IsTextType(Builtin(v, p), VARCHAR)
    ensures IsBinaryType(Builtin(v, p), BLOB)
    ensures IsSpecialType(Builtin(v, p), ARRAY)
  {
    StandardPrefix(v, p);
    StandardEntries();
    RegisteredInItsCategory(Table(v, p), 17);
    RegisteredInItsCategory(Table(v, p), 24);
    RegisteredInItsCategory(Table(v, p), 27);
    RegisteredInItsCategory(Table(v, p), 4);
    RegisteredInItsCategory(Table(v, p), 0);
  }

  lemma VarcharAndTimestampNames(v: VendorCodes, p: Platform)
    requires DistinctRegCodes(Table(v, p))
    ensures JdbcTypeName(Builtin(v, p), VARCHAR) == "VARCHAR"
    ensures JdbcTypeName(Builtin(v, p), TIMESTAMP) == "TIMESTAMP"
  {
    StandardPrefix(v, p);
    StandardEntries();
    BuiltinCanonicalRoundTrip(v, p, 27);
    BuiltinCanonicalRoundTrip(v, p, 24);
  }

  lemma TypeNamesOfThree(r: Registry, a: int, b: int, c: int)
    ensures TypeNames(r, [a, b, c]) == [JdbcTypeName(r, a), JdbcTypeName(r, b), JdbcTypeName(r, c)]
  {
  }

  lemma ExampleNames(v: VendorCodes, p: Platform)
    requires DistinctRegCodes(Table(v, p))
    requires 99999 !in VendorCodeSet(v, p)
    ensures TypeNames(Builtin(v, p), [VARCHAR, TIMESTAMP, 99999]) == ["VARCHAR", "TIMESTAMP", "99999"]
  {
    VarcharAndTimestampNames(v, p);
    UnknownCodeExample(v, p);
    TypeNamesOfThree(Builtin(v, p), VARCHAR, TIMESTAMP, 99999);
  }

  /** `getJdbcTypeDescriptions` on two registered codes and an unknown one. */
  lemma DescriptionsExample(v: VendorCodes, p: Platform)
    requires DistinctRegCodes(Table(v, p))
    requires 99999 !in VendorCodeSet(v, p)
    ensures Join.Join(TypeNames(Builtin(v, p), [VARCHAR, TIMESTAMP, 99999]), ", ") == "VARCHAR, TIMESTAMP, 99999"
  {
    ExampleNames(v, p);
    JoinOfExample();
  }

  lemma JoinOfExample()
    ensures Join.Join(["VARCHAR", "TIMESTAMP", "99999"], ", ") == "VARCHAR, TIMESTAMP, 99999"
  {
    assert ["VARCHAR", "TIMESTAMP", "99999"][..2] == ["VARCHAR", "TIMESTAMP"];
    assert ["VARCHAR", "TIMESTAMP"][..1] == ["VARCHAR"];
  }
}
