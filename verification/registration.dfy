/**
 The static initialiser as data: a sequence of registration steps replayed from the
 empty registry. A step is either a full registration (`registerJdbcType`) or a
 name-only alias (`_typeNameToTypeCode.put`). The lemmas here describe the replayed
 registry directly from the step sequence: later steps overwrite earlier ones, and
 category sets only accumulate.
 */
module Registration {
  import opened Optional
  import Ascii
  import opened TypeMap
  import Decimal

  datatype Step =
    | Reg(code: int, name: string, category: Category)
    | Alias(key: string, target: int)

  /** The name-map key a step writes. */
  function Key(s: Step): string {
    match s
    case Reg(_, n, _) => Ascii.ToUpper(n)
    case Alias(k, _) => k
  }

  /** The code a step stores under its key. */
  function Target(s: Step): int {
    match s
    case Reg(c, _, _) => c
    case Alias(_, c) => c
  }

  function Apply(r: Registry, s: Step): Registry {
    match s
    case Reg(c, n, cat) => Register(r, c, n, cat)
    case Alias(k, c) => PutAlias(r, k, c)
  }

  /** The registry after running `steps` in order from the empty registry. */
  function Replay(steps: seq<Step>): Registry
    decreases |steps|
  {
    if |steps| == 0 then Empty else Apply(Replay(steps[..|steps| - 1]), steps[|steps| - 1])
  }

  /** Registered codes never repeat: the assumption under which the table is a partition. */
  predicate DistinctRegCodes(steps: seq<Step>) {
    forall i, j :: 0 <= i < j < |steps| && steps[i].Reg? && steps[j].Reg? ==> steps[i].code != steps[j].code
  }

  /** `steps[i]` is the last step writing its key. */
  predicate LastForKey(steps: seq<Step>, i: int)
    requires 0 <= i < |steps|
  {
    forall j :: i < j < |steps| ==> Key(steps[j]) != Key(steps[i])
  }

  /** The name keys of the replayed registry are exactly the keys some step wrote. */
  lemma {:induction false} ReplayNameKeys(steps: seq<Step>, k: string)
    ensures k in Replay(steps).nameToCode <==> exists i :: 0 <= i < |steps| && Key(steps[i]) == k
    decreases |steps|
  {
    if |steps| > 0 {
      var init := steps[..|steps| - 1];
      ReplayNameKeys(init, k);
      if exists i :: 0 <= i < |init| && Key(init[i]) == k {
        var i :| 0 <= i < |init| && Key(init[i]) == k;
        assert Key(steps[i]) == k;
      }
      if exists i :: 0 <= i < |steps| && Key(steps[i]) == k {
        var i :| 0 <= i < |steps| && Key(steps[i]) == k;
        if i < |init| {
          assert Key(init[i]) == k;
        }
      }
    }
  }

  /** Last write wins: the last step writing a key decides that key's code. */
  lemma {:induction false} ReplayLastNameWins(steps: seq<Step>, i: int)
    requires 0 <= i < |steps|
    requires LastForKey(steps, i)
    ensures Key(steps[i]) in Replay(steps).nameToCode
    ensures Replay(steps).nameToCode[Key(steps[i])] == Target(steps[i])
    decreases |steps|
  {
    var init := steps[..|steps| - 1];
    if i < |steps| - 1 {
      assert LastForKey(init, i) by {
        forall j | i < j < |init| ensures Key(init[j]) != Key(init[i]) {
          assert init[j] == steps[j];
        }
      }
      ReplayLastNameWins(init, i);
      assert init[i] == steps[i];
    }
  }

  /** The code keys of the replayed registry are exactly the registered codes; aliases add none. */
  lemma {:induction false} ReplayCodeKeys(steps: seq<Step>, c: int)
    ensures c in Replay(steps).codeToName <==> exists i :: 0 <= i < |steps| && steps[i].Reg? && steps[i].code == c
    decreases |steps|
  {
    if |steps| > 0 {
      var init := steps[..|steps| - 1];
      ReplayCodeKeys(init, c);
      if exists i :: 0 <= i < |init| && init[i].Reg? && init[i].code == c {
        var i :| 0 <= i < |init| && init[i].Reg? && init[i].code == c;
        assert steps[i] == init[i];
      }
      if exists i :: 0 <= i < |steps| && steps[i].Reg? && steps[i].code == c {
        var i :| 0 <= i < |steps| && steps[i].Reg? && steps[i].code == c;
        if i < |init| {
          assert init[i] == steps[i];
        }
      }
    }
  }

  /** The last registration of a code decides its name: the upper-cased registered name. */
  lemma {:induction false} ReplayLastCodeWins(steps: seq<Step>, i: int)
    requires 0 <= i < |steps| && steps[i].Reg?
    requires forall j :: i < j < |steps| && steps[j].Reg? ==> steps[j].code != steps[i].code
    ensures steps[i].code in Replay(steps).codeToName
    ensures Replay(steps).codeToName[steps[i].code] == Ascii.ToUpper(steps[i].name)
    decreases |steps|
  {
    var init := steps[..|steps| - 1];
    if i < |steps| - 1 {
      assert init[i] == steps[i];
      forall j | i < j < |init| && init[j].Reg? ensures init[j].code != init[i].code {
        assert init[j] == steps[j];
      }
      ReplayLastCodeWins(init, i);
    }
  }

  /** One step adds at most its own code to its own category. */
  lemma ApplyCategory(r: Registry, s: Step, cat: Category, c: int)
    ensures InCategory(Apply(r, s), cat, c) <==> InCategory(r, cat, c) || (s.Reg? && s.code == c && s.category == cat)
  {
  }

  /** A code is in a category's set exactly when some registration put it there. */
  lemma {:induction false} ReplayCategory(steps: seq<Step>, cat: Category, c: int)
    ensures InCategory(Replay(steps), cat, c) <==>
      exists i :: 0 <= i < |steps| && steps[i].Reg? && steps[i].code == c && steps[i].category == cat
    decreases |steps|
  {
    if |steps| > 0 {
      var init := steps[..|steps| - 1];
      var last := steps[|steps| - 1];
      ReplayCategory(init, cat, c);
      ApplyCategory(Replay(init), last, cat, c);
      if exists i :: 0 <= i < |init| && init[i].Reg? && init[i].code == c && init[i].category == cat {
        var i :| 0 <= i < |init| && init[i].Reg? && init[i].code == c && init[i].category == cat;
        assert steps[i] == init[i];
      }
      if exists i :: 0 <= i < |steps| && steps[i].Reg? && steps[i].code == c && steps[i].category == cat {
        var i :| 0 <= i < |steps| && steps[i].Reg? && steps[i].code == c && steps[i].category == cat;
        if i < |init| {
          assert init[i] == steps[i];
        }
      }
    }
  }

  /** Some registration of `steps` stored name `n` under code `c`. */
  lemma {:induction false} ReplayCodeNames(steps: seq<Step>, c: int)
    requires c in Replay(steps).codeToName
    ensures exists i :: (0 <= i < |steps| && steps[i].Reg? && steps[i].code == c &&
                         Replay(steps).codeToName[c] == Ascii.ToUpper(steps[i].name))
    decreases |steps|
  {
    var init := steps[..|steps| - 1];
    var last := steps[|steps| - 1];
    if last.Reg? && last.code == c {
      assert Replay(steps).codeToName[c] == Ascii.ToUpper(last.name);
    } else {
      ReplayCodeNames(init, c);
      var i :| 0 <= i < |init| && init[i].Reg? && init[i].code == c &&
        Replay(init).codeToName[c] == Ascii.ToUpper(init[i].name);
      assert steps[i] == init[i];
    }
  }

  // ---------------------------------------------------------------------------
  // Tables whose keys and codes do not repeat
  // ---------------------------------------------------------------------------

  /** The name a step is given in the table, before upper-casing. */
  function Name(s: Step): string {
    match s
    case Reg(_, n, _) => n
    case Alias(k, _) => k
  }

  /** No two steps write the same name key. */
  predicate UniqueKeys(steps: seq<Step>) {
    forall i, j :: 0 <= i < j < |steps| ==> Key(steps[i]) != Key(steps[j])
  }

  /** No two steps are given the same name. */
  predicate UniqueNames(steps: seq<Step>) {
    forall i, j :: 0 <= i < j < |steps| ==> Name(steps[i]) != Name(steps[j])
  }

  predicate NamesWithin(steps: seq<Step>, names: set<string>) {
    forall i :: 0 <= i < |steps| ==> Name(steps[i]) in names
  }

  predicate KeysWithin(steps: seq<Step>, keys: set<string>) {
    forall i :: 0 <= i < |steps| ==> Key(steps[i]) in keys
  }

  predicate CodesWithin(steps: seq<Step>, codes: set<int>) {
    forall i :: 0 <= i < |steps| && steps[i].Reg? ==> steps[i].code in codes
  }

  /** Every string of `names` is already upper-case. */
  predicate UpperCaseSet(names: set<string>) {
    forall n :: n in names ==> Ascii.NoLower(n)
  }

  lemma UpperCaseSetUnion(a: set<string>, b: set<string>)
    requires UpperCaseSet(a) && UpperCaseSet(b)
    ensures UpperCaseSet(a + b)
  {
  }

  lemma UpperCaseSetSubset(a: set<string>, b: set<string>)
    requires a <= b && UpperCaseSet(b)
    ensures UpperCaseSet(a)
  {
  }

  lemma NamesWithinMonotonic(steps: seq<Step>, names: set<string>, more: set<string>)
    requires NamesWithin(steps, names) && names <= more
    ensures NamesWithin(steps, more)
  {
  }

  /** When every name is already upper-case, each step's key is its name. */
  lemma UpperNamesAreKeys(steps: seq<Step>, names: set<string>)
    requires NamesWithin(steps, names) && UpperCaseSet(names)
    ensures forall i :: 0 <= i < |steps| ==> Key(steps[i]) == Name(steps[i])
    ensures KeysWithin(steps, names)
    ensures UniqueNames(steps) ==> UniqueKeys(steps)
  {
    forall i | 0 <= i < |steps| ensures Key(steps[i]) == Name(steps[i]) {
      if steps[i].Reg? {
        Ascii.ToUpperOfNoLower(steps[i].name);
      }
    }
  }

  /** Two name-unique tables with disjoint name sets concatenate to a name-unique table. */
  lemma UniqueNamesAppend(a: seq<Step>, b: seq<Step>, na: set<string>, nb: set<string>)
    requires UniqueNames(a) && UniqueNames(b)
    requires NamesWithin(a, na) && NamesWithin(b, nb) && na !! nb
    ensures UniqueNames(a + b) && NamesWithin(a + b, na + nb)
  {
    var ab := a + b;
    forall i, j | 0 <= i < j < |ab| ensures Name(ab[i]) != Name(ab[j]) {
      if j < |a| {
        assert ab[i] == a[i] && ab[j] == a[j];
      } else if i >= |a| {
        assert ab[i] == b[i - |a|] && ab[j] == b[j - |a|];
      } else {
        assert Name(ab[i]) in na && Name(ab[j]) in nb;
      }
    }
  }

  /** Two code-distinct tables with disjoint code sets concatenate to a code-distinct table. */
  lemma DistinctCodesAppend(a: seq<Step>, b: seq<Step>, ca: set<int>, cb: set<int>)
    requires DistinctRegCodes(a) && DistinctRegCodes(b)
    requires CodesWithin(a, ca) && CodesWithin(b, cb) && ca !! cb
    ensures DistinctRegCodes(a + b) && CodesWithin(a + b, ca + cb)
  {
    var ab := a + b;
    forall i, j | 0 <= i < j < |ab| && ab[i].Reg? && ab[j].Reg? ensures ab[i].code != ab[j].code {
      if j < |a| {
        assert ab[i] == a[i] && ab[j] == a[j];
      } else if i >= |a| {
        assert ab[i] == b[i - |a|] && ab[j] == b[j - |a|];
      } else {
        assert ab[i].code in ca && ab[j].code in cb;
      }
    }
  }

  /** The codes of a concatenation lie within the union of the parts' code sets. */
  lemma CodesWithinAppend(a: seq<Step>, b: seq<Step>, ca: set<int>, cb: set<int>)
    requires CodesWithin(a, ca) && CodesWithin(b, cb)
    ensures CodesWithin(a + b, ca + cb)
  {
    var ab := a + b;
    forall i | 0 <= i < |ab| && ab[i].Reg? ensures ab[i].code in ca + cb {
      if i >= |a| {
        assert ab[i] == b[i - |a|];
      }
    }
  }

  // ---------------------------------------------------------------------------
  // Consequences for the lookups
  // ---------------------------------------------------------------------------

  /**
   With unique keys, the key a step writes looks up that step's code, provided the key
   is upper-case (as registered names always are).
   */
  lemma UniqueKeyLookup(steps: seq<Step>, i: int)
    requires 0 <= i < |steps| && UniqueKeys(steps)
    requires Ascii.NoLower(Key(steps[i]))
    ensures JdbcTypeCode(Replay(steps), Key(steps[i])) == Some(Target(steps[i]))
  {
    ReplayLastNameWins(steps, i);
    Ascii.ToUpperOfNoLower(Key(steps[i]));
  }

  /** A name no step writes is unknown: `getJdbcTypeCode` answers None. */
  lemma UnwrittenNameUnknown(steps: seq<Step>, keys: set<string>, typeName: string)
    requires KeysWithin(steps, keys)
    requires Ascii.ToUpper(typeName) !in keys
    ensures JdbcTypeCode(Replay(steps), typeName) == None
  {
    ReplayNameKeys(steps, Ascii.ToUpper(typeName));
  }

  /**
   Round trip for a canonical name: with unique keys and distinct codes, a registered
   upper-case name looks up its code, and that code names it again.
   */
  lemma CanonicalRoundTrip(steps: seq<Step>, i: int)
    requires 0 <= i < |steps| && steps[i].Reg?
    requires UniqueKeys(steps) && DistinctRegCodes(steps)
    requires steps[i].name != "" && Ascii.NoLower(steps[i].name)
    ensures JdbcTypeCode(Replay(steps), steps[i].name) == Some(steps[i].code)
    ensures JdbcTypeName(Replay(steps), steps[i].code) == steps[i].name
  {
    ReplayLastNameWins(steps, i);
    ReplayLastCodeWins(steps, i);
    Ascii.ToUpperOfNoLower(steps[i].name);
  }

  /**
   An alias resolves to the code of its target, whose name is the target's registered
   name, not the alias: aliases are one-directional.
   */
  lemma AliasRoundTrip(steps: seq<Step>, i: int, j: int)
    requires 0 <= i < |steps| && steps[i].Alias?
    requires 0 <= j < |steps| && steps[j].Reg? && steps[j].code == steps[i].target
    requires UniqueKeys(steps) && DistinctRegCodes(steps)
    requires Ascii.NoLower(steps[i].key) && steps[j].name != ""
    ensures JdbcTypeCode(Replay(steps), steps[i].key) == Some(steps[j].code)
    ensures JdbcTypeName(Replay(steps), steps[j].code) == Ascii.ToUpper(steps[j].name)
  {
    ReplayLastNameWins(steps, i);
    ReplayLastCodeWins(steps, j);
    Ascii.ToUpperOfNoLower(steps[i].key);
    assert Ascii.ToUpper(steps[j].name) != "";
  }

  /**
   Aliases are one-directional: with unique keys, no code is ever given an alias key as
   its name, because only registrations write names and each wrote a different key.
   */
  lemma AliasKeyNeverAName(steps: seq<Step>, k: int, c: int)
    requires 0 <= k < |steps| && steps[k].Alias?
    requires UniqueKeys(steps)
    ensures c in Replay(steps).codeToName ==> Replay(steps).codeToName[c] != steps[k].key
  {
    if c in Replay(steps).codeToName {
      ReplayCodeNames(steps, c);
      var i :| 0 <= i < |steps| && steps[i].Reg? && steps[i].code == c &&
        Replay(steps).codeToName[c] == Ascii.ToUpper(steps[i].name);
      assert Key(steps[i]) == Replay(steps).codeToName[c];
      assert i != k;
    }
  }

  /** Every registration leaves its code in its category: category sets only grow. */
  lemma RegisteredInItsCategory(steps: seq<Step>, i: int)
    requires 0 <= i < |steps| && steps[i].Reg?
    ensures InCategory(Replay(steps), steps[i].category, steps[i].code)
  {
    ReplayCategory(steps, steps[i].category, steps[i].code);
  }

  /**
   Registered codes are exactly the codes with a category, and with distinct codes no
   code has two categories: the categories partition the registered codes.
   */
  lemma ExactlyOneCategory(steps: seq<Step>, c: int)
    requires DistinctRegCodes(steps)
    ensures c in Replay(steps).codeToName <==> exists cat :: InCategory(Replay(steps), cat, c)
    ensures forall cat1, cat2 :: InCategory(Replay(steps), cat1, c) && InCategory(Replay(steps), cat2, c) ==> cat1 == cat2
  {
    ReplayCodeKeys(steps, c);
    forall cat | InCategory(Replay(steps), cat, c) ensures c in Replay(steps).codeToName {
      ReplayCategory(steps, cat, c);
    }
    if c in Replay(steps).codeToName {
      var i :| 0 <= i < |steps| && steps[i].Reg? && steps[i].code == c;
      ReplayCategory(steps, steps[i].category, c);
    }
    forall cat1, cat2 | InCategory(Replay(steps), cat1, c) && InCategory(Replay(steps), cat2, c) ensures cat1 == cat2 {
      ReplayCategory(steps, cat1, c);
      ReplayCategory(steps, cat2, c);
      var i :| 0 <= i < |steps| && steps[i].Reg? && steps[i].code == c && steps[i].category == cat1;
      var j :| 0 <= j < |steps| && steps[j].Reg? && steps[j].code == c && steps[j].category == cat2;
      assert i == j;
    }
  }

  /** The five predicates partition the registered codes: one holds, or none if unregistered. */
  lemma ReplayPartition(steps: seq<Step>, c: int)
    requires DistinctRegCodes(steps)
    ensures PredicatesHolding(Replay(steps), c) == (if c in Replay(steps).codeToName then 1 else 0)
  {
    ExactlyOneCategory(steps, c);
  }

  /**
   A code no registration uses is unregistered, has no category, and is described by
   its decimal form.
   */
  lemma UnusedCode(steps: seq<Step>, codes: set<int>, c: int)
    requires CodesWithin(steps, codes) && c !in codes
    ensures c !in Replay(steps).codeToName
    ensures PredicatesHolding(Replay(steps), c) == 0
    ensures JdbcTypeName(Replay(steps), c) == Decimal.IntToString(c)
  {
    ReplayCodeKeys(steps, c);
    forall cat ensures !InCategory(Replay(steps), cat, c) {
      ReplayCategory(steps, cat, c);
    }
  }

  /** An alias key that is not a number is never the description of any code. */
  lemma AliasNeverDescribed(steps: seq<Step>, k: int, c: int)
    requires 0 <= k < |steps| && steps[k].Alias?
    requires UniqueKeys(steps)
    requires Decimal.ParseInt(steps[k].key) == None
    ensures JdbcTypeName(Replay(steps), c) != steps[k].key
  {
    AliasKeyNeverAName(steps, k, c);
  }

  /** Replaying any steps from the empty registry keeps the registry consistent. */
  lemma {:induction false} ReplayConsistent(steps: seq<Step>)
    ensures Consistent(Replay(steps))
    decreases |steps|
  {
    if |steps| == 0 {
      EmptyConsistent();
    } else {
      var init := steps[..|steps| - 1];
      ReplayConsistent(init);
      match steps[|steps| - 1]
      case Reg(c, n, cat) => RegisterKeepsConsistent(Replay(init), c, n, cat);
      case Alias(k, c) => PutAliasKeepsConsistent(Replay(init), k, c);
    }
  }
}
