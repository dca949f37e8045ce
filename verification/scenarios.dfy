/** Worked examples on small configurations: placeholders naming a nested
    key and a plain key, user variables, the missing-key and non-map cases of `Has`, a placeholder
    that refers to itself, and percent signs in ordinary text. Fuel is
    written `fuel + 1` where at least one substitution pass is needed. */
module Scenarios {
  import opened Wrappers
  import opened Strings
  import opened ConfigTree
  import opened Variables
  import opened Placeholders
  import opened Resolver
  import opened ResolverFacts

  lemma KeyPathOf(a: string, b: string)
    requires '.' !in a && '.' !in b
    ensures KeyPath(a + "." + b) == [a, b]
  {
    KeyPathRoundTrip([a, b]);
  }

  lemma KeyPathOfSegment(a: string)
    requires '.' !in a
    ensures KeyPath(a) == [a]
  {
    KeyPathRoundTrip([a]);
  }

  // ---- A placeholder naming a nested key ----

  /** `{"var1": {"var1-1": "value1-1"}, "var2": "~~%var1.var1-1%~~+value2"}`:
      a dotted key, and a string whose placeholder names that dotted key. */
  function NestedRoot(): ConfigValue {
    Map([Entry("var1", Map([Entry("var1-1", Str("value1-1"))])),
         Entry("var2", Str("~~%var1.var1-1%~~+value2"))])
  }

  /** The fixture holds `value1-1` under `var1` then `var1-1`, and the
      referring string under `var2`. */
  lemma NestedRootHolds()
    ensures Traverse(NestedRoot(), ["var1", "var1-1"]) == Some(Str("value1-1"))
    ensures Traverse(NestedRoot(), ["var2"]) == Some(Str("~~%var1.var1-1%~~+value2"))
  {
    var inner := Map([Entry("var1-1", Str("value1-1"))]);
    assert Lookup(NestedRoot().entries, "var1") == Some(inner);
    assert Lookup(inner.entries, "var1-1") == Some(Str("value1-1"));
    assert Traverse(inner, ["var1-1"]) == Some(Str("value1-1"));
    assert Lookup(NestedRoot().entries, "var2") == Some(Str("~~%var1.var1-1%~~+value2"));
  }

  lemma NestedPath()
    ensures KeyPath("var1.var1-1") == ["var1", "var1-1"]
  {
    KeyPathOf("var1", "var1-1");
    assert "var1" + "." + "var1-1" == "var1.var1-1";
  }

  /** A dotted key is reached through its parent map, and a value without
      placeholders comes back as stored. */
  lemma NestedKey(c: Config, fuel: nat)
    requires Traverse(c.root, ["var1", "var1-1"]) == Some(Str("value1-1"))
    ensures Get(c, Some("var1.var1-1"), Null, fuel) == Ok(Str("value1-1"))
  {
    NestedPath();
    NoTagNoPlaceholder("value1-1");
    GetExistingKey(c, "var1.var1-1", Null, Null, fuel);
  }

  /** With no variable of that name, `%var1.var1-1%` stands for the nested
      key's value. */
  lemma NestedResolve(c: Config, fuel: nat)
    requires Traverse(c.root, ["var1", "var1-1"]) == Some(Str("value1-1"))
    requires GetVariable(c.vars, "var1.var1-1", Null) == Null
    ensures Resolve(c, "var1.var1-1", fuel) == Ok("value1-1")
  {
    NestedKey(c, fuel);
  }

  lemma NestedSplit()
    ensures "~~%var1.var1-1%~~+value2" == "~~" + Token("var1.var1-1") + "~~+value2"
  {
  }

  lemma NestedNames()
    ensures Names("~~" + Token("var1.var1-1") + "~~+value2") == ["var1.var1-1"]
  {
    NamesOfSingle("~~", "var1.var1-1", "~~+value2");
  }

  lemma NestedReplace()
    ensures ReplaceAll("~~" + Token("var1.var1-1") + "~~+value2", Token("var1.var1-1"), "value1-1")
         == "~~" + "value1-1" + "~~+value2"
  {
    ReplaceAllSingle("~~", Token("var1.var1-1"), "~~+value2", "value1-1");
  }

  lemma NestedJoin()
    ensures "~~" + "value1-1" + "~~+value2" == "~~value1-1~~+value2"
  {
  }

  lemma NestedResolved()
    ensures NoPlaceholder("~~value1-1~~+value2")
  {
    NoTagNoPlaceholder("~~value1-1~~+value2");
  }

  /** `var2`'s text resolves in one pass. */
  lemma NestedText(c: Config, fuel: nat)
    requires Resolve(c, "var1.var1-1", fuel) == Ok("value1-1")
    ensures ReplaceVariables(c, "~~%var1.var1-1%~~+value2", fuel + 1) == Ok("~~value1-1~~+value2")
  {
    NestedSplit();
    NestedNames();
    NestedReplace();
    NestedJoin();
    NestedResolved();
    SinglePlaceholder(c, "~~%var1.var1-1%~~+value2", "var1.var1-1", "~~value1-1~~+value2", fuel);
  }

  lemma NestedSelect(c: Config)
    requires Traverse(c.root, ["var2"]) == Some(Str("~~%var1.var1-1%~~+value2"))
    ensures Selected(c, Some("var2"), Null) == Str("~~%var1.var1-1%~~+value2")
  {
    KeyPathOfSegment("var2");
  }

  /** A placeholder naming a nested key is replaced by that key's value in
      any tree that holds both keys as `NestedRoot` does, whatever else the
      variable tables hold. */
  lemma NestedReference(c: Config, fuel: nat)
    requires Traverse(c.root, ["var1", "var1-1"]) == Some(Str("value1-1"))
    requires Traverse(c.root, ["var2"]) == Some(Str("~~%var1.var1-1%~~+value2"))
    requires GetVariable(c.vars, "var1.var1-1", Null) == Null
    ensures Get(c, Some("var2"), Null, fuel + 1) == Ok(Str("~~value1-1~~+value2"))
  {
    NestedResolve(c, fuel);
    NestedSelect(c);
    NestedText(c, fuel);
    GetStoredString(c, "var2", "~~%var1.var1-1%~~+value2", Null, fuel + 1);
  }

  // ---- A placeholder naming a plain key ----

  // The package's fixture file is not part of this model. One fixture
  // consistent with the expected `~~var1.var1-1~~+value2` has `var2` hold
  // `~~%var3%~~+value2` and `var3` hold the text `var1.var1-1`.

  lemma IndirectSplit()
    ensures "~~%var3%~~+value2" == "~~" + Token("var3") + "~~+value2"
  {
  }

  lemma IndirectNames()
    ensures Names("~~%var3%~~+value2") == ["var3"]
  {
    IndirectSplit();
    NamesOfSingle("~~", "var3", "~~+value2");
  }

  lemma IndirectJoin()
    ensures "~~" + "var1.var1-1" + "~~+value2" == "~~var1.var1-1~~+value2"
  {
  }

  lemma IndirectReplace()
    ensures ReplaceAll("~~%var3%~~+value2", Token("var3"), "var1.var1-1") == "~~var1.var1-1~~+value2"
  {
    IndirectSplit();
    IndirectJoin();
    NoTagNoPlaceholder("~~+value2");
    ReplaceAllSingle("~~", Token("var3"), "~~+value2", "var1.var1-1");
  }

  lemma IndirectResolved()
    ensures NoPlaceholder("~~var1.var1-1~~+value2")
  {
    NoTagNoPlaceholder("~~var1.var1-1~~+value2");
  }

  /** Once `var3` resolves to its text, `var2`'s string resolves in one pass;
      the dotted text put in is not itself a placeholder. */
  lemma IndirectText(c: Config, fuel: nat)
    requires Resolve(c, "var3", fuel) == Ok("var1.var1-1")
    ensures ReplaceVariables(c, "~~%var3%~~+value2", fuel + 1) == Ok("~~var1.var1-1~~+value2")
  {
    IndirectNames();
    IndirectReplace();
    IndirectResolved();
    SinglePlaceholder(c, "~~%var3%~~+value2", "var3", "~~var1.var1-1~~+value2", fuel);
  }

  /** With no variable of that name, `%var3%` stands for the text stored
      under `var3`. */
  lemma IndirectResolve(c: Config, fuel: nat)
    requires Traverse(c.root, ["var3"]) == Some(Str("var1.var1-1"))
    requires GetVariable(c.vars, "var3", Null) == Null
    ensures Resolve(c, "var3", fuel) == Ok("var1.var1-1")
  {
    KeyPathOfSegment("var3");
    NoTagNoPlaceholder("var1.var1-1");
    GetExistingKey(c, "var3", Null, Null, fuel);
  }

  lemma IndirectSelect(c: Config)
    requires Traverse(c.root, ["var2"]) == Some(Str("~~%var3%~~+value2"))
    ensures Selected(c, Some("var2"), Null) == Str("~~%var3%~~+value2")
  {
    KeyPathOfSegment("var2");
  }

  /** `get('var2')` gives `~~var1.var1-1~~+value2` in any tree that holds
      the two keys as above, whatever else the variable tables hold. */
  lemma IndirectReference(c: Config, fuel: nat)
    requires Traverse(c.root, ["var2"]) == Some(Str("~~%var3%~~+value2"))
    requires Traverse(c.root, ["var3"]) == Some(Str("var1.var1-1"))
    requires GetVariable(c.vars, "var3", Null) == Null
    ensures Get(c, Some("var2"), Null, fuel + 1) == Ok(Str("~~var1.var1-1~~+value2"))
  {
    IndirectResolve(c, fuel);
    IndirectSelect(c);
    IndirectText(c, fuel);
    GetStoredString(c, "var2", "~~%var3%~~+value2", Null, fuel + 1);
  }

  // ---- A user variable ----

  lemma EnvSplit()
    ensures "%env%" == "" + Token("env") + ""
  {
  }

  lemma EnvNames()
    ensures Names("%env%") == ["env"]
  {
    EnvSplit();
    NamesOfSingle("", "env", "");
  }

  lemma EnvReplace()
    ensures ReplaceAll("%env%", Token("env"), "prod") == "prod"
  {
    EnvSplit();
    NoTagNoPlaceholder("");
    ReplaceAllSingle("", Token("env"), "", "prod");
    assert "" + "prod" + "" == "prod";
  }

  /** Once `env` resolves to `prod`, `%env%` becomes `prod` in one pass. */
  lemma EnvText(c: Config, fuel: nat)
    requires Resolve(c, "env", fuel) == Ok("prod")
    ensures ReplaceVariables(c, "%env%", fuel + 1) == Ok("prod")
  {
    EnvNames();
    EnvReplace();
    NoTagNoPlaceholder("prod");
    SinglePlaceholder(c, "%env%", "env", "prod", fuel);
  }

  /** A user variable set with `SetVariable` fills its placeholder, unless
      a built-in of the same name is set. */
  lemma UserVariableFillsPlaceholder(c: Config, fuel: nat)
    requires !IsSet(c.vars.defaults, "env")
    ensures ReplaceVariables(c.(vars := SetVariable(c.vars, "env", Str("prod"))), "%env%", fuel + 1) == Ok("prod")
  {
    var vars := SetVariable(c.vars, "env", Str("prod"));
    SetVariableThenGet(c.vars, "env", Str("prod"), "env", Null);
    VariableBeforeKeyPath(c.root, c.root, vars, "env", fuel);
    EnvText(c.(vars := vars), fuel);
  }

  // ---- `Has` on a tree of strings ----

  /** The shape the `has` test relies on: `var5` and `var6` hold strings,
      `var23` does not exist. */
  function HasRoot(): ConfigValue {
    Map([Entry("var5", Str("~~extends:config.1.json, config.2.json~~")),
         Entry("var6", Str("~~include:config.1.json~~"))])
  }

  /** Keys present at the top level are found. */
  lemma HasPresentKey(vars: Tables)
    ensures Has(Config(HasRoot(), vars), "var5")
  {
    KeyPathOfSegment("var5");
  }

  /** A key below a string is not found, and nothing fails. */
  lemma HasKeyBelowString(vars: Tables)
    ensures !Has(Config(HasRoot(), vars), "var5.var1")
  {
    KeyPathOf("var5", "var1");
    assert "var5" + "." + "var1" == "var5.var1";
  }

  /** A key below a missing key is not found, and nothing fails. */
  lemma HasMissingKey(vars: Tables)
    ensures !Has(Config(HasRoot(), vars), "var23.var1")
  {
    KeyPathOf("var23", "var1");
    assert "var23" + "." + "var1" == "var23.var1";
    assert Lookup(HasRoot().entries, "var23") == None;
  }

  // ---- A placeholder that names its own key ----

  lemma SelfNames()
    ensures "%a%" == "" + Token("a") + ""
    ensures Names("" + Token("a") + "") == ["a"]
  {
    NamesOfSingle("", "a", "");
  }

  /** A key `a` holding `"%a%"`: every re-scan finds the placeholder again,
      so no amount of fuel resolves it, and the error names the key that
      was asked for. */
  lemma SelfReferenceNeverResolves(c: Config, fuel: nat)
    requires Traverse(c.root, ["a"]) == Some(Str("%a%"))
    requires GetVariable(c.vars, "a", Null) == Null
    ensures Get(c, Some("a"), Null, fuel) == Err(ConfigError(Some("a"), FuelExhausted))
  {
    KeyPathOfSegment("a");
    SelfNames();
    SelfReference(c, "a", "%a%", fuel);
  }

  // ---- Percent signs in prose ----

  lemma ProseSplit()
    ensures "5% of 7%" == "5" + Token(" of 7") + ""
  {
  }

  lemma ProseNames()
    ensures Names("5" + Token(" of 7") + "") == [" of 7"]
  {
    NamesOfSingle("5", " of 7", "");
  }

  lemma ProseReplace()
    ensures ReplaceAll("5" + Token(" of 7") + "", Token(" of 7"), "") == "5" + "" + ""
  {
    NoTagNoPlaceholder("");
    ReplaceAllSingle("5", Token(" of 7"), "", "");
  }

  /** Prose with two percent signs reads as a placeholder when only name
      characters lie between them; with no such variable or key, that
      stretch of text resolves to nothing and disappears. */
  lemma PercentSignsInProse(c: Config, fuel: nat)
    requires GetVariable(c.vars, " of 7", Null) == Null
    requires !Has(c, " of 7")
    ensures ReplaceVariables(c, "5% of 7%", fuel + 1) == Ok("5")
  {
    KeyPathWhenNoVariable(c, " of 7", fuel);
    ProseSplit();
    ProseNames();
    ProseReplace();
    assert "5" + "" + "" == "5";
    NoTagNoPlaceholder("5");
    SinglePlaceholder(c, "5% of 7%", " of 7", "5", fuel);
  }
}
