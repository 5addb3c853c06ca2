# TypeMap: the JDBC type registry of SymmetricDS

This project models `org.jumpmind.db.model.TypeMap`, the registry that maps SQL type
names to `java.sql.Types` codes and back, and sorts codes into five categories
(numeric, date/time, textual, binary, special).

The Java class keeps three static maps:

- name → code;
- code → name;
- category → set of codes.

A static initialiser fills the maps by calling `registerJdbcType` once per built-in type.
Two alias-only `put`s into the name map (`BOOLEANINT`, `BOOLEANCHAR`) are mixed into
those calls. After that, the class only answers lookups.

## How the model is organised

The model replaces the mutable static maps with an immutable `Registry` value. Each
registration returns the next registry.

- `optional.dfy`: `Option`, the model of a Java `null` result.
- `ascii.dfy`: upper- and lower-casing of ASCII letters, which stands in for `String.toUpperCase`.
- `decimal.dfy`: `String.valueOf(int)` as `IntToString`, with a parser that inverts it.
- `join.dfy`: joining strings with a separator. It also defines the "append each part
  and a separator" form that the `StringBuilder` loop produces.
- `typemap.dfy` (module `TypeMap`):
  - the registry and the two bootstrap primitives, `registerJdbcType` and the alias `put`;
  - the public lookups `getJdbcTypeCode`, `getJdbcTypeName` and `getJdbcTypeDescriptions`;
  - the five category predicates;
  - the invariant that registration keeps.
- `registration.dfy` (module `Registration`): the static initialiser as a sequence of
  steps replayed from the empty registry, with lemmas that hold for any such sequence.
  Later writes win in the two plain maps. Category sets only grow. Aliases are
  one-directional.
- `jdbc_types.dfy`: the `java.sql.Types` constants.
- `builtin.dfy` (module `BuiltinTypes`): the built-in table of lines 133-179, entry by
  entry and in the source's order, and proofs that its names are distinct and upper-case.
- `builtin_facts.dfy` (module `BuiltinFacts`): what the built-in registry answers.
  - Every registered name round-trips.
  - The Torque aliases resolve one way only.
  - Names that are only declared are unknown.
  - Unregistered codes fall back to their decimal string.
  - The five predicates partition the registered codes.

The codes taken from `ColumnTypes` and the answers of the `PlatformUtils` probes are
parameters: `VendorCodes` and `Platform`. Facts that depend on codes not colliding
require `DistinctRegCodes` of the table; the source assumes this without checking it.
`SampleCodesDistinct` shows that the values the JDK and the Oracle driver use meet it.

Where the code and its documentation disagree, the model follows the code.

- The javadoc of `getJdbcTypeName` says unknown codes give `null`. The code returns
  the decimal string of the code instead, so the operation never fails.
- `NUMERIC` is itself a member of the NUMERIC category, because line 150 registers it
  there. It is easy to leave it out of a list of the numeric types.
  `StandardCategoryExamples` proves that it is numeric.

## Model

| member | source | states |
|---|---|---|
| TypeMap.Register | symmetric-db/src/main/java/org/jumpmind/db/model/TypeMap.java:231-246 | After registering (code, name, category): the name in any case looks up the code, the code names the upper-cased name, and the code is in the category. The upper-cased name key and the code key are written: added, or overwritten when already present. Every other name lookup, code description and category membership is unchanged. |
| TypeMap.PutAlias | symmetric-db/src/main/java/org/jumpmind/db/model/TypeMap.java:172-173 | An alias `put` makes its raw key look up the code and changes nothing else. The code-to-name map and the categories are untouched. |
| TypeMap.JdbcTypeCode | symmetric-db/src/main/java/org/jumpmind/db/model/TypeMap.java:189-192 | A code is returned exactly when the upper-cased query is a key of the name map; otherwise the result is absent (`null`). |
| TypeMap.JdbcTypeName | symmetric-db/src/main/java/org/jumpmind/db/model/TypeMap.java:215-222 | Never empty. A registered non-empty name is returned as stored. For a missing or empty name, the result is the canonical decimal numeral of the code (no leading zero, no "-0"), which parses back to the code; `Decimal.CanonicalUnique` shows no other string has both properties. |
| TypeMap.JdbcTypeDescriptions | symmetric-db/src/main/java/org/jumpmind/db/model/TypeMap.java:194-205 | The builder loop and the trim of the last two characters yield exactly the names of the codes, in input order with duplicates kept, joined by ", ". The result is empty exactly when there are no codes. |
| TypeMap.CaseInsensitiveLookup | symmetric-db/src/main/java/org/jumpmind/db/model/TypeMap.java:189-192 | Looking up a name gives the same answer as looking up its upper-case or its lower-case spelling. |
| TypeMap.NoSetNoMember | symmetric-db/src/main/java/org/jumpmind/db/model/TypeMap.java:255-260 | A category predicate is false when the category has no set yet (the `null` branch). |
| TypeMap.NameForCodeRevealsRegistration | symmetric-db/src/main/java/org/jumpmind/db/model/TypeMap.java:215-222 | When stored names are made of letters and underscores, the description parses as a number exactly for unregistered codes, and then parses back to the code. |
| TypeMap.RegisterKeepsConsistent | symmetric-db/src/main/java/org/jumpmind/db/model/TypeMap.java:231-246 | Registration preserves three facts: a code has a name exactly when it has a category, stored names are upper-case, and every stored name is itself a name key. |
| TypeMap.PutAliasKeepsConsistent | symmetric-db/src/main/java/org/jumpmind/db/model/TypeMap.java:171-173 | An alias `put` preserves the same invariant. |
| TypeMap.RegisteredIffCategorised | symmetric-db/src/main/java/org/jumpmind/db/model/TypeMap.java:255-316 | In a consistent registry, a code has a name exactly when at least one of the five predicates holds for it. |
| TypeMap.DescribedNameIsKnown | symmetric-db/src/main/java/org/jumpmind/db/model/TypeMap.java:215-222 | In a consistent registry, the description of a registered code is a name that `getJdbcTypeCode` resolves. |
| Registration.ReplayNameKeys | symmetric-db/src/main/java/org/jumpmind/db/model/TypeMap.java:131-180 | After the initialiser, a name key exists exactly when some step wrote it. |
| Registration.ReplayLastNameWins | symmetric-db/src/main/java/org/jumpmind/db/model/TypeMap.java:235 | A name key maps to the code of the last step that wrote it. |
| Registration.ReplayCodeKeys | symmetric-db/src/main/java/org/jumpmind/db/model/TypeMap.java:236 | A code has a name exactly when some registration used it. Aliases add no code. |
| Registration.ReplayLastCodeWins | symmetric-db/src/main/java/org/jumpmind/db/model/TypeMap.java:236 | A code is named by the upper-cased name of the last registration that used it. |
| Registration.ReplayCodeNames | symmetric-db/src/main/java/org/jumpmind/db/model/TypeMap.java:236 | The stored name of a code is the upper-cased name of some registration of that code. |
| Registration.ReplayCategory | symmetric-db/src/main/java/org/jumpmind/db/model/TypeMap.java:238-245 | A code is in a category exactly when some registration put it there. Sets are created on first use and only grow. |
| Registration.RegisteredInItsCategory | symmetric-db/src/main/java/org/jumpmind/db/model/TypeMap.java:238-245 | Every registration leaves its code in its category, even if a later step reuses the code. |
| Registration.ReplayConsistent | symmetric-db/src/main/java/org/jumpmind/db/model/TypeMap.java:131-180 | Any sequence of registrations and aliases, replayed from the empty maps, yields a consistent registry. |
| Registration.UniqueKeyLookup | symmetric-db/src/main/java/org/jumpmind/db/model/TypeMap.java:189-192 | When no two steps write the same key, an upper-case key looks up the code of the step that wrote it. |
| Registration.UnwrittenNameUnknown | symmetric-db/src/main/java/org/jumpmind/db/model/TypeMap.java:189-192 | A name whose upper-case form no step writes looks up nothing. |
| Registration.CanonicalRoundTrip | symmetric-db/src/main/java/org/jumpmind/db/model/TypeMap.java:235-236 | With unique keys and distinct codes, a registered upper-case name looks up its code, and that code is described by the name. |
| Registration.AliasRoundTrip | symmetric-db/src/main/java/org/jumpmind/db/model/TypeMap.java:171-173 | With unique keys and distinct codes, an alias looks up its target's code, and that code is described by the target's name. |
| Registration.AliasKeyNeverAName | symmetric-db/src/main/java/org/jumpmind/db/model/TypeMap.java:171-173 | With unique keys, no code's stored name is an alias key. |
| Registration.AliasNeverDescribed | symmetric-db/src/main/java/org/jumpmind/db/model/TypeMap.java:215-222 | With unique keys, an alias key that is not a numeral is never the description of any code. |
| Registration.ExactlyOneCategory | symmetric-db/src/main/java/org/jumpmind/db/model/TypeMap.java:255-316 | With distinct codes, a code has a name exactly when it has a category, and it never has two categories. |
| Registration.ReplayPartition | symmetric-db/src/main/java/org/jumpmind/db/model/TypeMap.java:255-316 | With distinct codes, one of the five predicates holds for a registered code and none holds for any other code. |
| Registration.UnusedCode | symmetric-db/src/main/java/org/jumpmind/db/model/TypeMap.java:215-222 | A code no registration uses has no name and no category, and is described by `String.valueOf`. |
| BuiltinTypes.StandardTypesNames | symmetric-db/src/main/java/org/jumpmind/db/model/TypeMap.java:133-160 | The 28 `java.sql.Types` registrations use 28 different names. |
| BuiltinTypes.LaterTypesNames | symmetric-db/src/main/java/org/jumpmind/db/model/TypeMap.java:161-179 | The later registrations and aliases use different names, all drawn from the eleven later names. |
| BuiltinTypes.TableKeysUnique | symmetric-db/src/main/java/org/jumpmind/db/model/TypeMap.java:133-179 | No two steps of the built-in table write the same name key, on either platform. Every name is upper-case, so each key is its name. |
| BuiltinFacts.StandardCodesDistinct | symmetric-db/src/main/java/org/jumpmind/db/model/TypeMap.java:133-160 | The `java.sql.Types` codes of the table never repeat. |
| BuiltinFacts.TableCodes | symmetric-db/src/main/java/org/jumpmind/db/model/TypeMap.java:133-179 | Every code the table registers is a standard code or one of the vendor and platform codes. |
| BuiltinFacts.SampleCodesDistinct | symmetric-db/src/main/java/org/jumpmind/db/model/TypeMap.java:161-179 | With the JDK and Oracle driver values, no two registrations of the table share a code, so the distinct-codes requirement can be met. |
| BuiltinFacts.BuiltinNameLookup | symmetric-db/src/main/java/org/jumpmind/db/model/TypeMap.java:133-179 | On every platform and for any vendor codes, every registered built-in name looks up its code, in upper and in lower case. |
| BuiltinFacts.BuiltinCanonicalRoundTrip | symmetric-db/src/main/java/org/jumpmind/db/model/TypeMap.java:133-179 | With distinct codes, describing the code of a registered built-in name gives back the name, so name to code to name is the identity. |
| BuiltinFacts.TorqueAliasesResolve | symmetric-db/src/main/java/org/jumpmind/db/model/TypeMap.java:172-173 | BOOLEANINT looks up the TINYINT code and BOOLEANCHAR the CHAR code, on either platform. |
| BuiltinFacts.TorqueTargetsKeepNames | symmetric-db/src/main/java/org/jumpmind/db/model/TypeMap.java:171-173 | With distinct codes, TINYINT and CHAR are still described as "TINYINT" and "CHAR". |
| BuiltinFacts.TorqueAliasesDescribeTargets | symmetric-db/src/main/java/org/jumpmind/db/model/TypeMap.java:171-173 | Describing the code an alias looks up gives the target's name, not the alias. |
| BuiltinFacts.TorqueAliasesOneWay | symmetric-db/src/main/java/org/jumpmind/db/model/TypeMap.java:171-173 | No code whatsoever is described as BOOLEANINT or BOOLEANCHAR. |
| BuiltinFacts.KnownNamesAreTableNames | symmetric-db/src/main/java/org/jumpmind/db/model/TypeMap.java:189-192 | A name that looks up a code is, upper-cased, one of the table's names. |
| BuiltinFacts.DeclaredOnlyNamesUnknown | symmetric-db/src/main/java/org/jumpmind/db/model/TypeMap.java:106-120 | GEOMETRY, GEOGRAPHY, POINT, LINESTRING, POLYGON, UUID, VARBIT, INTERVAL, IMAGE, DATETIME2 and TSVECTOR, in any letter case, look up nothing. |
| BuiltinFacts.BuiltinStoredNamesAreTypeNames | symmetric-db/src/main/java/org/jumpmind/db/model/TypeMap.java:133-179 | Every name the built-in registry stores for a code consists of upper-case letters and underscores. |
| BuiltinFacts.BuiltinDescriptionRevealsRegistration | symmetric-db/src/main/java/org/jumpmind/db/model/TypeMap.java:215-222 | For the built-in registry, the description of a code parses as a number exactly when the table does not register the code, and then it parses back to the code. |
| BuiltinFacts.DescriptionsAreKnownNames | symmetric-db/src/main/java/org/jumpmind/db/model/TypeMap.java:215-222 | The description of every registered built-in code is a name that `getJdbcTypeCode` resolves. |
| BuiltinFacts.BuiltinCategoriesPartition | symmetric-db/src/main/java/org/jumpmind/db/model/TypeMap.java:255-316 | With distinct codes, exactly one of the five predicates holds for each registered built-in code, and none for any other code. |
| BuiltinFacts.UnregisteredCodeFallback | symmetric-db/src/main/java/org/jumpmind/db/model/TypeMap.java:215-222 | A code outside the table's codes is unregistered, is in no category, and is described by its decimal string. |
| BuiltinFacts.UnknownCodeExample | symmetric-db/src/main/java/org/jumpmind/db/model/TypeMap.java:218-220 | Code 99999 is described as "99999", unless a vendor code happens to be 99999. |
| BuiltinFacts.StandardCategoryExamples | symmetric-db/src/main/java/org/jumpmind/db/model/TypeMap.java:133-160 | NUMERIC is numeric, TIMESTAMP is date/time, VARCHAR is textual, BLOB is binary and ARRAY is special, whatever the parameters. |
| BuiltinFacts.DescriptionsExample | symmetric-db/src/main/java/org/jumpmind/db/model/TypeMap.java:194-205 | The names of VARCHAR, TIMESTAMP and 99999, joined as the descriptions are, give "VARCHAR, TIMESTAMP, 99999". |
| Ascii.ToUpper | symmetric-db/src/main/java/org/jumpmind/db/model/TypeMap.java:191 | Upper-casing keeps the length, leaves no lower-case letter, and maps each character on its own. |
| Ascii.ToUpperIdempotent | symmetric-db/src/main/java/org/jumpmind/db/model/TypeMap.java:235 | Upper-casing an upper-cased name changes nothing. |
| Ascii.ToUpperIgnoresLower | symmetric-db/src/main/java/org/jumpmind/db/model/TypeMap.java:191 | Upper-casing a lower-cased string gives the upper-casing of the original. |
| Decimal.IntToString | symmetric-db/src/main/java/org/jumpmind/db/model/TypeMap.java:219 | `String.valueOf(int)` is non-empty, has a leading '-' exactly for negative codes, and is otherwise digits with no leading zero and no "-0". |
| Decimal.IntToStringRoundTrip | symmetric-db/src/main/java/org/jumpmind/db/model/TypeMap.java:219 | Parsing the decimal string of a code gives the code back. |
| Decimal.CanonicalUnique | symmetric-db/src/main/java/org/jumpmind/db/model/TypeMap.java:219 | A canonical numeral that parses as a number is exactly `String.valueOf` of that number, so the fallback string is fully determined. |
| Decimal.IntToStringInjective | symmetric-db/src/main/java/org/jumpmind/db/model/TypeMap.java:219 | Different codes have different decimal strings, so the fallback never confuses two codes. |
| Join.TrimTerminated | symmetric-db/src/main/java/org/jumpmind/db/model/TypeMap.java:200-202 | Dropping the trailing separator from the builder's output gives the join. |
| Join.TerminatedEmpty | symmetric-db/src/main/java/org/jumpmind/db/model/TypeMap.java:200 | The builder's output is empty exactly when no parts were appended. |

## Left out

- `symmetric-client-clib/inc/file/FileEntry.h` is not part of this model. It is an
  unrelated C header with no logic.
- `PlatformUtils.supportsJava14JdbcTypes`, `determineBooleanTypeCode` and
  `determineDatalinkTypeCode` (lines 165-168) are runtime probes. They become the
  `Platform` parameter.
- `ColumnTypes` is not part of this model. Its codes (lines 161-162 and 175-179) become
  the `VendorCodes` parameter.
- Java `int` width is not modelled. Codes are unbounded integers, since no operation
  does arithmetic on them. `IntToString` matches `String.valueOf` on every value an
  `int` can hold.
- `String.toUpperCase` folds case only for ASCII letters. Locale-dependent and
  non-ASCII case mappings are not modelled. Every name in the table is ASCII, but a
  query need not be: Java's default-locale `toUpperCase` maps 'ı' to 'I' and 'ſ' to 'S',
  and under a Turkish locale it maps "integer" to "İNTEGER". Such lookups differ from
  the model: Java finds INTEGER for "ınteger" in every locale, where the model finds
  nothing, and under a Turkish locale Java finds nothing for "integer", where the
  model finds INTEGER.
- A `null` type name passed to `getJdbcTypeCode`, or a `null` array passed to
  `getJdbcTypeDescriptions`, throws in Java. Dafny strings and sequences cannot be
  null, so that path does not exist in the model.
- Static initialisation order, the `HashMap`/`HashSet` implementations, the builder's
  initial capacity and the thread safety of the static fields are not modelled. The
  registry is a value built once by `Registration.Replay`.
- The eleven string constants at lines 106-113 and 118-120 are declared but never
  registered, so they carry no behaviour. They appear only as `DeclaredOnlyNames`, the
  names proved unknown. The other five constants of that block (SQLXML, NCHAR,
  NVARCHAR, LONGNVARCHAR, NCLOB) are registered at lines 175-179 and modelled there.
- BuiltinFacts.BuiltinCanonicalRoundTrip requires that no two registrations of the table share a code (`DistinctRegCodes`), because the code-to-name direction depends on it; the name-to-code direction holds unconditionally (`BuiltinFacts.BuiltinNameLookup`). The source relies on distinct codes without checking it. When two registrations share a code, the later name wins (`Registration.ReplayLastCodeWins`) and the code keeps both categories.
- BuiltinFacts.TorqueTargetsKeepNames requires distinct codes, for the same reason.
- BuiltinFacts.TorqueAliasesDescribeTargets requires distinct codes, for the same reason.
- BuiltinFacts.BuiltinCategoriesPartition requires distinct codes. A shared code would be in two categories.
- BuiltinFacts.DescriptionsExample requires distinct codes, and that no vendor code is 99999.
- BuiltinFacts.KnownNamesAreTableNames gives one direction only: a known name is a
  table name. The converse is stated per entry, for every platform and any vendor codes, by
  BuiltinFacts.BuiltinNameLookup and BuiltinFacts.TorqueAliasesResolve. The JDK 1.4 names are known only when the
  platform probe says so.
