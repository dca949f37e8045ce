/** Properties of the resolver that relate several calls: the fuel bound
    only ever cuts a computation short, substitution treats the leaves of a
    container independently, and the lookup order of a placeholder. */
module ResolverFacts {
  import opened Wrappers
  import opened Strings
  import opened ConfigTree
  import opened Variables
  import opened Placeholders
  import opened Resolver

  /** The substitution gave up because the fuel ran out. */
  predicate Exhausted<T>(res: Result<T, Cause>) {
    res.Err? && res.error == FuelExhausted
  }

  /** `Get` gave up because the fuel ran out. */
  predicate GetExhausted(res: Result<ConfigValue, ConfigError>) {
    res.Err? && res.error.cause == FuelExhausted
  }

  // One more unit of fuel changes nothing unless the fuel had run out. The
  // lemmas follow the mutual recursion of the resolver, call for call.

  lemma {:induction false} GetMoreFuel(c: Config, key: Option<string>, default: ConfigValue, fuel: nat)
    decreases fuel, 3, 0
    ensures !GetExhausted(Get(c, key, default, fuel)) ==>
      Get(c, key, default, fuel + 1) == Get(c, key, default, fuel)
  {
    TreeMoreFuel(c, Selected(c, key, default), fuel);
  }

  lemma {:induction false} TreeMoreFuel(c: Config, v: ConfigValue, fuel: nat)
    decreases fuel, 2, Size(v)
    ensures !Exhausted(ReplaceInTree(c, v, fuel)) ==>
      ReplaceInTree(c, v, fuel + 1) == ReplaceInTree(c, v, fuel)
  {
    match v
    case Str(s) => StringMoreFuel(c, s, fuel);
    case List(items) => ListMoreFuel(c, items, fuel);
    case Map(entries) => EntriesMoreFuel(c, entries, fuel);
    case _ =>
  }

  lemma {:induction false} ListMoreFuel(c: Config, items: seq<ConfigValue>, fuel: nat)
    decreases fuel, 2, SizeList(items)
    ensures !Exhausted(ReplaceInList(c, items, fuel)) ==>
      ReplaceInList(c, items, fuel + 1) == ReplaceInList(c, items, fuel)
  {
    if items != [] {
      TreeMoreFuel(c, items[0], fuel);
      ListMoreFuel(c, items[1..], fuel);
    }
  }

  lemma {:induction false} EntriesMoreFuel(c: Config, entries: seq<Entry>, fuel: nat)
    decreases fuel, 2, SizeEntries(entries)
    ensures !Exhausted(ReplaceInEntries(c, entries, fuel)) ==>
      ReplaceInEntries(c, entries, fuel + 1) == ReplaceInEntries(c, entries, fuel)
  {
    if entries != [] {
      TreeMoreFuel(c, entries[0].value, fuel);
      EntriesMoreFuel(c, entries[1..], fuel);
    }
  }

  lemma {:induction false} StringMoreFuel(c: Config, s: string, fuel: nat)
    decreases fuel, 1, 0
    ensures !Exhausted(ReplaceVariables(c, s, fuel)) ==>
      ReplaceVariables(c, s, fuel + 1) == ReplaceVariables(c, s, fuel)
  {
    if Names(s) != [] && fuel > 0 {
      var f := fuel - 1;
      var pass := ReplacePass(c, s, Names(s), f);
      PassMoreFuel(c, s, Names(s), f);
      if pass.Ok? {
        StringMoreFuel(c, pass.value, f);
      }
      StringMoreFuelStep(c, s, f, pass);
    } else {
      StringMoreFuelBase(c, s, fuel);
    }
  }

  /** `StringMoreFuel` when no pass runs: nothing to replace, or no fuel. */
  lemma StringMoreFuelBase(c: Config, s: string, fuel: nat)
    requires Names(s) == [] || fuel == 0
    ensures !Exhausted(ReplaceVariables(c, s, fuel)) ==>
      ReplaceVariables(c, s, fuel + 1) == ReplaceVariables(c, s, fuel)
  {
  }

  /** `StringMoreFuel` after one pass, given the pass and the re-scan are
      unaffected by one more unit of fuel. */
  lemma StringMoreFuelStep(c: Config, s: string, f: nat, pass: Result<string, Cause>)
    requires Names(s) != []
    requires pass == ReplacePass(c, s, Names(s), f)
    requires !Exhausted(pass) ==> ReplacePass(c, s, Names(s), f + 1) == pass
    requires pass.Ok? && !Exhausted(ReplaceVariables(c, pass.value, f)) ==>
      ReplaceVariables(c, pass.value, f + 1) == ReplaceVariables(c, pass.value, f)
    ensures !Exhausted(ReplaceVariables(c, s, f + 1)) ==>
      ReplaceVariables(c, s, f + 2) == ReplaceVariables(c, s, f + 1)
  {
    StringStep(c, s, f + 1);
    StringStep(c, s, f + 2);
  }

  /** One step of `ReplaceVariables` on a string that holds a placeholder. */
  lemma StringStep(c: Config, s: string, fuel: nat)
    requires Names(s) != [] && fuel > 0
    ensures ReplacePass(c, s, Names(s), fuel - 1).Err? ==>
      ReplaceVariables(c, s, fuel) == Err(ReplacePass(c, s, Names(s), fuel - 1).error)
    ensures ReplacePass(c, s, Names(s), fuel - 1).Ok? ==>
      ReplaceVariables(c, s, fuel) == ReplaceVariables(c, ReplacePass(c, s, Names(s), fuel - 1).value, fuel - 1)
  {
  }

  lemma {:induction false} PassMoreFuel(c: Config, s: string, names: seq<string>, fuel: nat)
    decreases fuel, 5, |names|
    ensures !Exhausted(ReplacePass(c, s, names, fuel)) ==>
      ReplacePass(c, s, names, fuel + 1) == ReplacePass(c, s, names, fuel)
  {
    if names != [] {
      ResolveMoreFuel(c, names[0], fuel);
      var text := Resolve(c, names[0], fuel);
      if text.Ok? {
        PassMoreFuel(c, ReplaceAll(s, Token(names[0]), text.value), names[1..], fuel);
      }
    }
  }

  lemma {:induction false} ResolveMoreFuel(c: Config, name: string, fuel: nat)
    decreases fuel, 4, 0
    ensures !Exhausted(Resolve(c, name, fuel)) ==>
      Resolve(c, name, fuel + 1) == Resolve(c, name, fuel)
  {
    if GetVariable(c.vars, name, Null) == Null {
      GetMoreFuel(c, Some(name), Null, fuel);
    }
  }

  /** Once `Get` answers without running out of fuel, any larger bound gives
      the same answer: the bound never changes a result, it only stops a
      substitution that would otherwise not end. */
  lemma {:induction false} GetFuelIrrelevant(c: Config, key: Option<string>, default: ConfigValue, fuel: nat, more: nat)
    requires fuel <= more
    requires !GetExhausted(Get(c, key, default, fuel))
    ensures Get(c, key, default, more) == Get(c, key, default, fuel)
    decreases more - fuel
  {
    if fuel < more {
      GetMoreFuel(c, key, default, fuel);
      GetFuelIrrelevant(c, key, default, fuel + 1, more);
    }
  }

  /** Substituting a list succeeds exactly when substituting each element on
      its own succeeds, and then yields the elements' results in order. */
  lemma {:induction false} ListElementwise(c: Config, items: seq<ConfigValue>, fuel: nat)
    ensures ReplaceInList(c, items, fuel).Ok? <==>
      forall k :: 0 <= k < |items| ==> ReplaceInTree(c, items[k], fuel).Ok?
    ensures ReplaceInList(c, items, fuel).Ok? ==>
      forall k :: 0 <= k < |items| ==>
        ReplaceInTree(c, items[k], fuel) == Ok(ReplaceInList(c, items, fuel).value[k])
    decreases |items|
  {
    if items != [] {
      ListElementwise(c, items[1..], fuel);
      var head := ReplaceInTree(c, items[0], fuel);
      var tail := ReplaceInList(c, items[1..], fuel);
      if head.Ok? && tail.Ok? {
        var out := [head.value] + tail.value;
        assert ReplaceInList(c, items, fuel) == Ok(out);
        forall k | 0 <= k < |items|
          ensures ReplaceInTree(c, items[k], fuel) == Ok(out[k])
        {
          if k > 0 {
            assert items[k] == items[1..][k - 1];
          }
        }
      } else if head.Ok? {
        var j :| 0 <= j < |items[1..]| && !ReplaceInTree(c, items[1..][j], fuel).Ok?;
        assert items[j + 1] == items[1..][j];
      }
    }
  }

  /** The same for a map: each value is substituted on its own and keeps
      its key and position. */
  lemma {:induction false} EntriesElementwise(c: Config, entries: seq<Entry>, fuel: nat)
    ensures ReplaceInEntries(c, entries, fuel).Ok? <==>
      forall k :: 0 <= k < |entries| ==> ReplaceInTree(c, entries[k].value, fuel).Ok?
    ensures ReplaceInEntries(c, entries, fuel).Ok? ==>
      forall k :: 0 <= k < |entries| ==>
        && ReplaceInEntries(c, entries, fuel).value[k].key == entries[k].key
        && ReplaceInTree(c, entries[k].value, fuel) == Ok(ReplaceInEntries(c, entries, fuel).value[k].value)
    decreases |entries|
  {
    if entries != [] {
      EntriesElementwise(c, entries[1..], fuel);
      var head := ReplaceInTree(c, entries[0].value, fuel);
      var tail := ReplaceInEntries(c, entries[1..], fuel);
      if head.Ok? && tail.Ok? {
        var out := [Entry(entries[0].key, head.value)] + tail.value;
        assert ReplaceInEntries(c, entries, fuel) == Ok(out);
        forall k | 0 <= k < |entries|
          ensures out[k].key == entries[k].key && ReplaceInTree(c, entries[k].value, fuel) == Ok(out[k].value)
        {
          if k > 0 {
            assert entries[k] == entries[1..][k - 1];
          }
        }
      } else if head.Ok? {
        var j :| 0 <= j < |entries[1..]| && !ReplaceInTree(c, entries[1..][j].value, fuel).Ok?;
        assert entries[j + 1] == entries[1..][j];
      }
    }
  }

  /** A missing key gives the caller's default, substituted like a stored
      value would be; a failure there is still reported against the key. */
  lemma GetMissingKey(c: Config, key: string, default: ConfigValue, fuel: nat)
    requires !Has(c, key)
    ensures Get(c, Some(key), default, fuel).Ok? <==> ReplaceInTree(c, default, fuel).Ok?
    ensures ReplaceInTree(c, default, fuel).Ok? ==>
      Get(c, Some(key), default, fuel).value == ReplaceInTree(c, default, fuel).value
    ensures ReplaceInTree(c, default, fuel).Err? ==>
      Get(c, Some(key), default, fuel).error == ConfigError(Some(key), ReplaceInTree(c, default, fuel).error)
  {
  }

  /** When the key exists the default plays no part, and a stored value
      without placeholders comes back exactly as stored. */
  lemma GetExistingKey(c: Config, key: string, d1: ConfigValue, d2: ConfigValue, fuel: nat)
    requires Has(c, key)
    ensures Get(c, Some(key), d1, fuel) == Get(c, Some(key), d2, fuel)
    ensures Resolved(Traverse(c.root, KeyPath(key)).value) ==>
      Get(c, Some(key), d1, fuel) == Ok(Traverse(c.root, KeyPath(key)).value)
  {
  }

  /** A key that holds a string gives that string after `ReplaceVariables`;
      a failure there is reported against the key. */
  lemma GetStoredString(c: Config, key: string, s: string, default: ConfigValue, fuel: nat)
    requires Selected(c, Some(key), default) == Str(s)
    ensures ReplaceVariables(c, s, fuel).Ok? ==>
      Get(c, Some(key), default, fuel) == Ok(Str(ReplaceVariables(c, s, fuel).value))
    ensures ReplaceVariables(c, s, fuel).Err? ==>
      Get(c, Some(key), default, fuel) == Err(ConfigError(Some(key), ReplaceVariables(c, s, fuel).error))
  {
  }

  /** Without a key, `Get` substitutes the whole tree. */
  lemma GetWholeTree(c: Config, default: ConfigValue, fuel: nat)
    ensures Get(c, None, default, fuel).Ok? <==> ReplaceInTree(c, c.root, fuel).Ok?
    ensures Get(c, None, default, fuel).Ok? ==>
      Get(c, None, default, fuel).value == ReplaceInTree(c, c.root, fuel).value
  {
  }

  /** A set variable wins over a configuration key of the same name: the
      tree is not consulted at all. */
  lemma VariableBeforeKeyPath(root1: ConfigValue, root2: ConfigValue, vars: Tables, name: string, fuel: nat)
    requires GetVariable(vars, name, Null) != Null
    ensures Resolve(Config(root1, vars), name, fuel) == Resolve(Config(root2, vars), name, fuel)
    ensures Resolve(Config(root1, vars), name, fuel) == Text(name, GetVariable(vars, name, Null))
  {
  }

  /** With no variable of that name, a placeholder stands for the value at
      that dotted key after its own substitution; a failure there is
      passed on; a key that does not exist gives the empty string. */
  lemma KeyPathWhenNoVariable(c: Config, name: string, fuel: nat)
    requires GetVariable(c.vars, name, Null) == Null
    ensures Get(c, Some(name), Null, fuel).Ok? ==>
      Resolve(c, name, fuel) == Text(name, Get(c, Some(name), Null, fuel).value)
    ensures Get(c, Some(name), Null, fuel).Err? ==>
      Resolve(c, name, fuel) == Err(Get(c, Some(name), Null, fuel).error.cause)
    ensures !Has(c, name) ==> Resolve(c, name, fuel) == Ok("")
  {
  }

  /** A pass succeeds exactly when every one of its names resolves; the
      text does not matter, since a name's resolution depends on the
      configuration alone. */
  lemma {:induction false} PassResolvesEveryName(c: Config, s: string, names: seq<string>, fuel: nat)
    ensures ReplacePass(c, s, names, fuel).Ok? <==>
      forall k :: 0 <= k < |names| ==> Resolve(c, names[k], fuel).Ok?
    decreases |names|
  {
    if names != [] {
      var text := Resolve(c, names[0], fuel);
      if text.Ok? {
        PassResolvesEveryName(c, ReplaceAll(s, Token(names[0]), text.value), names[1..], fuel);
        forall k | 1 <= k < |names|
          ensures names[k] == names[1..][k - 1]
        {
        }
      }
    }
  }

  /** A failed pass reports the error of the first name that does not
      resolve; every name before it resolved. */
  lemma {:induction false} PassFailsAtFirstUnresolved(c: Config, s: string, names: seq<string>, fuel: nat)
    requires ReplacePass(c, s, names, fuel).Err?
    ensures exists k :: (0 <= k < |names|
                         && Resolve(c, names[k], fuel) == Err(ReplacePass(c, s, names, fuel).error)
                         && forall j :: 0 <= j < k ==> Resolve(c, names[j], fuel).Ok?)
    decreases |names|
  {
    var text := Resolve(c, names[0], fuel);
    if text.Ok? {
      var rest := names[1..];
      PassFailsAtFirstUnresolved(c, ReplaceAll(s, Token(names[0]), text.value), rest, fuel);
      var k :| (0 <= k < |rest|
                && Resolve(c, rest[k], fuel) == Err(ReplacePass(c, s, names, fuel).error)
                && forall j :: 0 <= j < k ==> Resolve(c, rest[j], fuel).Ok?);
      assert names[k + 1] == rest[k];
      forall j | 0 <= j < k + 1
        ensures Resolve(c, names[j], fuel).Ok?
      {
        if j > 0 {
          assert names[j] == rest[j - 1];
        }
      }
    } else {
      assert Resolve(c, names[0], fuel) == Err(ReplacePass(c, s, names, fuel).error);
    }
  }

  /** In a pass, a name's token is cut out of the text at every occurrence
      and the name's text is put in its place. */
  lemma PassReplacesEveryOccurrence(c: Config, s: string, name: string, fuel: nat)
    requires Resolve(c, name, fuel).Ok?
    ensures ReplacePass(c, s, [name], fuel)
         == Ok(Implode(Explode(s, Token(name)), Resolve(c, name, fuel).value))
  {
    ReplaceAllIsImplodeExplode(s, Token(name), Resolve(c, name, fuel).value);
  }

  /** A string with a single placeholder whose text leaves no placeholder
      behind is resolved by one pass: the result is the string with that
      token replaced by the name's text everywhere. */
  lemma SinglePlaceholder(c: Config, s: string, name: string, t: string, fuel: nat)
    requires Names(s) == [name]
    requires Resolve(c, name, fuel).Ok?
    requires ReplaceAll(s, Token(name), Resolve(c, name, fuel).value) == t
    requires NoPlaceholder(t)
    ensures ReplaceVariables(c, s, fuel + 1) == Ok(t)
  {
    assert ReplacePass(c, s, [name], fuel) == ReplacePass(c, t, [], fuel);
  }

  /** A key whose string's first placeholder names that same key, with no
      variable of that name, can never be resolved: each pass puts the
      placeholder back, and the fuel runs out whatever its bound. */
  lemma {:induction false} SelfReference(c: Config, key: string, s: string, fuel: nat)
    requires Selected(c, Some(key), Null) == Str(s)
    requires GetVariable(c.vars, key, Null) == Null
    requires Names(s) != [] && Names(s)[0] == key
    ensures Get(c, Some(key), Null, fuel) == Err(ConfigError(Some(key), FuelExhausted))
  {
    if fuel > 0 {
      SelfReference(c, key, s, fuel - 1);
      SelfReferenceStep(c, key, s, fuel);
    } else {
      StringMoreFuelBase(c, s, fuel);
      GetStoredString(c, key, s, Null, fuel);
    }
  }

  /** The inductive step of `SelfReference`: the placeholder's own lookup
      runs out of fuel, so the pass and then the whole call fail. */
  lemma SelfReferenceStep(c: Config, key: string, s: string, fuel: nat)
    requires fuel > 0
    requires Selected(c, Some(key), Null) == Str(s)
    requires GetVariable(c.vars, key, Null) == Null
    requires Names(s) != [] && Names(s)[0] == key
    requires Get(c, Some(key), Null, fuel - 1) == Err(ConfigError(Some(key), FuelExhausted))
    ensures Get(c, Some(key), Null, fuel) == Err(ConfigError(Some(key), FuelExhausted))
  {
    KeyPathWhenNoVariable(c, key, fuel - 1);
    PassStopsAtFirstFailure(c, s, Names(s), fuel - 1);
    StringStep(c, s, fuel);
    GetStoredString(c, key, s, Null, fuel);
  }

  /** A pass fails as soon as its first name cannot be resolved. */
  lemma PassStopsAtFirstFailure(c: Config, s: string, names: seq<string>, fuel: nat)
    requires names != [] && Resolve(c, names[0], fuel).Err?
    ensures ReplacePass(c, s, names, fuel) == Err(Resolve(c, names[0], fuel).error)
  {
  }
}
