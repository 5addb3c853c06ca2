/**
 The JDBC type registry of `org.jumpmind.db.model.TypeMap`: three maps built once by
 replaying registrations, then only read.

   - `nameToCode`: upper-cased type name to type code (`_typeNameToTypeCode`)
   - `codeToName`: type code to upper-cased type name (`_typeCodeToTypeName`)
   - `typesPerCategory`: category to the set of its codes (`_typesPerCategory`);
     a category has an entry only once a code was registered under it

 The Java state is static and mutable during class initialisation; here a registry is
 an immutable value and each registration returns the next one.
 */
module TypeMap {
  import opened Optional
  import Ascii
  import Decimal
  import Join

  /** `JdbcTypeCategoryEnum`. */
  datatype Category = Numeric | DateTime | Textual | Binary | Special

  datatype Registry = Registry(
    nameToCode: map<string, int>,
    codeToName: map<int, string>,
    typesPerCategory: map<Category, set<int>>)

  /** The state before the static initialiser runs: three empty maps. */
  const Empty: Registry := Registry(map[], map[], map[])

  /** `code` is in the set of `cat`; false when `cat` has no set at all. */
  predicate InCategory(r: Registry, cat: Category, code: int) {
    cat in r.typesPerCategory && code in r.typesPerCategory[cat]
  }

  // ---------------------------------------------------------------------------
  // Registration (the private bootstrap primitives)
  // ---------------------------------------------------------------------------

  /**
   `registerJdbcType`: the upper-cased name now looks up `code`, `code` now names the
   upper-cased name, and `code` joins the set of `cat`. Every other name key, every
   other code key and every other category membership is as before; nothing is removed.
   */
  function Register(r: Registry, code: int, name: string, cat: Category): (r': Registry)
    ensures JdbcTypeCode(r', name) == Some(code)
    ensures name != "" ==> JdbcTypeName(r', code) == Ascii.ToUpper(name)
    ensures InCategory(r', cat, code)
    ensures r'.nameToCode.Keys == r.nameToCode.Keys + {Ascii.ToUpper(name)}
    ensures forall k :: k in r.nameToCode && k != Ascii.ToUpper(name) ==> r'.nameToCode[k] == r.nameToCode[k]
    ensures forall s :: Ascii.ToUpper(s) != Ascii.ToUpper(name) ==> JdbcTypeCode(r', s) == JdbcTypeCode(r, s)
    ensures r'.codeToName.Keys == r.codeToName.Keys + {code}
    ensures forall d :: d != code ==> JdbcTypeName(r', d) == JdbcTypeName(r, d)
    ensures forall c, d :: InCategory(r', c, d) <==> InCategory(r, c, d) || (c == cat && d == code)
  {
    var key := Ascii.ToUpper(name);
    var members := if cat in r.typesPerCategory then r.typesPerCategory[cat] else {};
    Registry(r.nameToCode[key := code], r.codeToName[code := key], r.typesPerCategory[cat := members + {code}])
  }

  /**
   `_typeNameToTypeCode.put(key, code)`: an alias for name lookup only. The key is stored
   as given (not upper-cased); the reverse map and the categories do not change.
   */
  function PutAlias(r: Registry, key: string, code: int): (r': Registry)
    ensures r'.nameToCode.Keys == r.nameToCode.Keys + {key}
    ensures r'.nameToCode[key] == code
    ensures forall k :: k in r.nameToCode && k != key ==> r'.nameToCode[k] == r.nameToCode[k]
    ensures forall s :: Ascii.ToUpper(s) == key ==> JdbcTypeCode(r', s) == Some(code)
    ensures forall s :: Ascii.ToUpper(s) != key ==> JdbcTypeCode(r', s) == JdbcTypeCode(r, s)
    ensures forall d :: JdbcTypeName(r', d) == JdbcTypeName(r, d)
    ensures forall c, d :: InCategory(r', c, d) <==> InCategory(r, c, d)
  {
    r.(nameToCode := r.nameToCode[key := code])
  }

  // ---------------------------------------------------------------------------
  // Public lookups
  // ---------------------------------------------------------------------------

  /** `getJdbcTypeCode`: the code of the upper-cased name, or None (Java's null). */
  function JdbcTypeCode(r: Registry, typeName: string): (c: Option<int>)
    ensures c.Some? <==> Ascii.ToUpper(typeName) in r.nameToCode
  {
    var key := Ascii.ToUpper(typeName);
    if key in r.nameToCode then Some(r.nameToCode[key]) else None
  }

  /**
   `getJdbcTypeName`: total. The registered name when there is a non-empty one,
   otherwise the decimal string of the code (`String.valueOf`), so never empty.
   */
  function JdbcTypeName(r: Registry, code: int): (name: string)
    ensures |name| >= 1
    ensures code in r.codeToName && r.codeToName[code] != "" ==> name == r.codeToName[code]
    ensures code !in r.codeToName || r.codeToName[code] == "" ==> Decimal.ParseInt(name) == Some(code) && Decimal.Canonical(name)
  {
    if code in r.codeToName && r.codeToName[code] != "" then r.codeToName[code]
    else
      Decimal.IntToStringRoundTrip(code);
      Decimal.IntToString(code)
  }

  predicate IsNumericType(r: Registry, code: int) { InCategory(r, Numeric, code) }

  predicate IsDateTimeType(r: Registry, code: int) { InCategory(r, DateTime, code) }

  predicate IsTextType(r: Registry, code: int) { InCategory(r, Textual, code) }

  predicate IsBinaryType(r: Registry, code: int) { InCategory(r, Binary, code) }

  predicate IsSpecialType(r: Registry, code: int) { InCategory(r, Special, code) }

  /** How many of the five category predicates hold for `code`. */
  function PredicatesHolding(r: Registry, code: int): nat {
    (if IsNumericType(r, code) then 1 else 0) +
    (if IsDateTimeType(r, code) then 1 else 0) +
    (if IsTextType(r, code) then 1 else 0) +
    (if IsBinaryType(r, code) then 1 else 0) +
    (if IsSpecialType(r, code) then 1 else 0)
  }

  /** The name of each code in order, each resolved as `getJdbcTypeName` does. */
  function TypeNames(r: Registry, types: seq<int>): seq<string> {
    seq(|types|, i requires 0 <= i < |types| => JdbcTypeName(r, types[i]))
  }

  lemma TypeNamesSnoc(r: Registry, types: seq<int>, i: int)
    requires 0 <= i < |types|
    ensures TypeNames(r, types[..i + 1]) == TypeNames(r, types[..i]) + [JdbcTypeName(r, types[i])]
  {
  }

  /**
   `getJdbcTypeDescriptions`: appends each name followed by ", " to a buffer, then
   drops the last two characters if the buffer is not empty. The result is the names
   in input order, duplicates kept, joined by ", "; empty exactly for no codes.
   */
  method JdbcTypeDescriptions(r: Registry, types: seq<int>) returns (s: string)
    ensures s == Join.Join(TypeNames(r, types), ", ")
    ensures s == "" <==> |types| == 0
  {
    var buff := "";
    var i := 0;
    while i < |types|
      invariant 0 <= i <= |types|
      invariant buff == Join.Terminated(TypeNames(r, types[..i]), ", ")
    {
      TypeNamesSnoc(r, types, i);
      Join.TerminatedSnoc(TypeNames(r, types[..i]), JdbcTypeName(r, types[i]), ", ");
      buff := buff + JdbcTypeName(r, types[i]) + ", ";
      i := i + 1;
    }
    assert types[..i] == types;
    Join.TerminatedEmpty(TypeNames(r, types), ", ");
    if |buff| > 0 {
      Join.TrimTerminated(TypeNames(r, types), ", ");
      buff := buff[..|buff| - 2];
    }
    s := buff;
  }

  // ---------------------------------------------------------------------------
  // Properties of the lookups on any registry
  // ---------------------------------------------------------------------------

  /** Name lookup ignores letter case: any spelling finds what the upper-case one finds. */
  lemma CaseInsensitiveLookup(r: Registry, typeName: string)
    ensures JdbcTypeCode(r, typeName) == JdbcTypeCode(r, Ascii.ToUpper(typeName))
    ensures JdbcTypeCode(r, typeName) == JdbcTypeCode(r, Ascii.ToLower(typeName))
  {
    Ascii.ToUpperIdempotent(typeName);
    Ascii.ToUpperIgnoresLower(typeName);
  }

  /** Category membership is false for every category the registry has no set for. */
  lemma NoSetNoMember(r: Registry, cat: Category, code: int)
    requires cat !in r.typesPerCategory
    ensures !InCategory(r, cat, code)
  {
  }

  /** A type name as registered: non-empty, upper-case letters and underscores only. */
  predicate IsTypeName(s: string) {
    |s| >= 1 && forall i :: 0 <= i < |s| ==> Ascii.IsUpper(s[i]) || s[i] == '_'
  }

  /**
   When every stored name is a type name, `getJdbcTypeName` tells registered codes from
   unregistered ones: its result parses as a number exactly for unregistered codes, and
   then it parses back to the code itself.
   */
  lemma NameForCodeRevealsRegistration(r: Registry, code: int)
    requires forall c :: c in r.codeToName ==> IsTypeName(r.codeToName[c])
    ensures Decimal.ParseInt(JdbcTypeName(r, code)).Some? <==> code !in r.codeToName
    ensures code !in r.codeToName ==> Decimal.ParseInt(JdbcTypeName(r, code)) == Some(code)
  {
    if code in r.codeToName {
      var n := r.codeToName[code];
      assert IsTypeName(n);
      assert !Decimal.IsDigit(n[0]) && n[0] != '-';
    }
  }

  // ---------------------------------------------------------------------------
  // The invariant registration keeps
  // ---------------------------------------------------------------------------

  /**
   The shape every registry built by the bootstrap primitives has: a code has a name
   exactly when it has a category, and every stored name is upper-case and is itself a
   key of the name map.
   */
  ghost predicate Consistent(r: Registry) {
    (forall c :: c in r.codeToName ==> Ascii.NoLower(r.codeToName[c]) && r.codeToName[c] in r.nameToCode) &&
    (forall cat, c :: InCategory(r, cat, c) ==> c in r.codeToName) &&
    (forall c :: c in r.codeToName ==> exists cat :: InCategory(r, cat, c))
  }

  lemma EmptyConsistent()
    ensures Consistent(Empty)
  {
  }

  lemma RegisterKeepsConsistent(r: Registry, code: int, name: string, cat: Category)
    requires Consistent(r)
    ensures Consistent(Register(r, code, name, cat))
  {
    var r' := Register(r, code, name, cat);
    forall c | c in r'.codeToName
      ensures Ascii.NoLower(r'.codeToName[c]) && r'.codeToName[c] in r'.nameToCode
      ensures exists k :: InCategory(r', k, c)
    {
      if c != code {
        var k :| InCategory(r, k, c);
        assert InCategory(r', k, c);
      } else {
        assert InCategory(r', cat, c);
      }
    }
  }

  lemma PutAliasKeepsConsistent(r: Registry, key: string, code: int)
    requires Consistent(r)
    ensures Consistent(PutAlias(r, key, code))
  {
    var r' := PutAlias(r, key, code);
    forall c | c in r'.codeToName ensures exists k :: InCategory(r', k, c) {
      var k :| InCategory(r, k, c);
      assert InCategory(r', k, c);
    }
  }

  /**
   In a consistent registry a code is registered exactly when one of the five category
   predicates holds for it.
   */
  lemma RegisteredIffCategorised(r: Registry, code: int)
    requires Consistent(r)
    ensures code in r.codeToName <==> PredicatesHolding(r, code) >= 1
  {
    if code in r.codeToName {
      var k :| InCategory(r, k, code);
      match k
      case Numeric => assert IsNumericType(r, code);
      case DateTime => assert IsDateTimeType(r, code);
      case Textual => assert IsTextType(r, code);
      case Binary => assert IsBinaryType(r, code);
      case Special => assert IsSpecialType(r, code);
    }
  }

  /**
   In a consistent registry the description of a registered code (with a non-empty
   name) is itself a name `getJdbcTypeCode` knows.
   */
  lemma DescribedNameIsKnown(r: Registry, code: int)
    requires Consistent(r)
    requires code in r.codeToName && r.codeToName[code] != ""
    ensures JdbcTypeCode(r, JdbcTypeName(r, code)).Some?
  {
    Ascii.ToUpperOfNoLower(r.codeToName[code]);
  }
}
