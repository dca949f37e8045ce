# Berlioz configuration resolver, modelled in Dafny

This project models the configuration resolver of the Berlioz `Config`
package (`AbstractConfig`). A decoded configuration is a tree of maps, lists
and scalars. The resolver offers:

- `get(key, default)`, which reads a value by a dotted key such as
  `var1.var1-1`;
- `has(key)`, which reports whether that dotted path exists;
- two variable tables: built-in defaults and user-defined variables
  (`getVariable`, `setVariable`, `setVariables`);
- `replaceVariables`, which rewrites every `%name%` token in a string value.
  A name is looked up first as a variable, then as a dotted key of the
  configuration. The string is re-scanned until no token is left.

The model is purely functional. `ConfigValue` is the tree, with maps as
ordered entry lists. `Tables` holds the two variable tables and `Config`
holds both the tree and the tables. Every resolver operation is a function
over these values and returns a `Result` when it can fail.

Modules, in dependency order:

| module | file | what it holds |
|---|---|---|
| `Wrappers` | wrappers.dfy | `Option` and `Result` |
| `Strings` | strings.dfy | `strpos`, `explode`, `implode` and `str_replace` on `seq<char>`, with their round-trip lemmas |
| `ConfigTree` | config_tree.dfy | the value tree, key lookup, the dotted-path walk (the traversal helper `b_array_traverse`) and the key path of a dotted key |
| `Variables` | variables.dfy | the two variable tables and their lookup and update |
| `Placeholders` | placeholders.dfy | the `%` tag, the placeholder scanner and the names it reports |
| `Resolver` | resolver.dfy | `Get`, `Has` and the mutually recursive substitution |
| `ResolverFacts` | resolver_facts.dfy | lemmas that relate several resolver calls |
| `Scenarios` | scenarios.dfy | worked examples: the `get` and `has` cases of the package's tests, over fixtures consistent with them, and edge cases of the code |

Three modelling decisions:

- **Fuel bounds the recursion.** Each call to the substitution functions takes
  a `fuel` bound, and each re-scan of a string costs one unit. The PHP code
  has no cycle detection, so a key `a` holding `"%a%"` recurses until the
  process fails. The model returns `Err(FuelExhausted)` in that case instead.
  The lemma `ResolverFacts.GetFuelIrrelevant` shows that the bound never
  changes an answer that was reached without running out.
- **The built-in variable table is a parameter.** The PHP class fills it from
  runtime constants such as the PHP version and the OS, so `NewConfig` takes
  it as an argument.
- **A placeholder's regular expression is matched by a hand-written
  scanner.** The expression is `%([\w\-\.\,\s]+)%` under `/i` with
  `preg_match_all`. `Scan` finds the leftmost, non-overlapping matches.
  `LeftmostUnique` shows that only one such sequence of matches exists, so
  `Scan` reports exactly the matches the regex search reports.

Two behaviours of `get` worth spelling out:

- Only a `null` key selects the whole tree (the `is_null` test of
  `src/AbstractConfig.php:52`). The empty key `""` is split into the single
  segment `""` and looked up like any other key.
- A missing key returns the caller's default (lines 56-57). The test that
  expects an exception for a missing key relies on a loader subclass, which
  is not part of this model.

A map is an ordered list of entries. A decoded PHP array never holds a key
twice, so only trees whose maps satisfy `KeysUnique` correspond to PHP
arrays. On other trees, lookup takes the first entry with the key.

## Model

| member | source | states |
|---|---|---|
| Variables.NewTables | src/AbstractConfig.php:25-34 | a new configuration has the given built-in table and an empty user table |
| Variables.GetVariable | src/AbstractConfig.php:124-129 | a set (non-null) built-in wins; otherwise a set user entry; otherwise the caller's default |
| Variables.DefaultShadowsUser | src/AbstractConfig.php:126-127 | a set built-in hides the user table completely: any two user tables give the same answer, the built-in's value |
| Variables.SetVariables | src/AbstractConfig.php:94-99 | the user table becomes exactly the given table; the built-ins are unchanged |
| Variables.SetVariablesForgetsPrevious | src/AbstractConfig.php:94-99 | after a bulk replace, lookups no longer depend on the previous user table |
| Variables.SetVariable | src/AbstractConfig.php:104-109 | entry `name` becomes `value`, the user key set gains only `name`, every other user entry and the whole built-in table are kept |
| Variables.SetVariableThenGet | src/AbstractConfig.php:104-129 | after setting a non-null variable, looking it up gives it back unless a built-in of that name is set; lookups of other names are unaffected |
| Strings.Explode | src/AbstractConfig.php:53 | splitting on a separator gives at least one part, gluing the parts with the separator gives the input back, and no part contains the separator |
| Strings.ExplodeImplode | src/AbstractConfig.php:53 | with a one-character separator, splitting the glued form of separator-free parts gives the parts back |
| Strings.ReplaceAllIsImplodeExplode | src/AbstractConfig.php:150 | `ReplaceAll`, the model of `str_replace`, equals cutting the text at every occurrence of the search string and gluing the pieces with the replacement |
| Strings.ReplaceAllAbsent | src/AbstractConfig.php:150 | a text that does not contain the search string is returned unchanged |
| Strings.ReplaceAllSingle | src/AbstractConfig.php:150 | a text with one occurrence of the search string, which no earlier position could start, gets exactly that occurrence replaced |
| ConfigTree.Lookup | src/AbstractConfig.php:54 | a key is absent exactly when no entry carries it; a value found is the value of the first entry with that key |
| ConfigTree.LookupUnique | src/AbstractConfig.php:54 | with unique keys, the value found under an entry's key is that entry's value |
| ConfigTree.TraverseSomeIffWalk | src/AbstractConfig.php:54 | `Traverse`, the model of `b_array_traverse`, succeeds exactly when every segment is found as a key through nested maps |
| ConfigTree.TraverseAppend | src/AbstractConfig.php:54 | walking a concatenated path is walking the first part, then the second from where the first ended |
| ConfigTree.ThroughNonMapFails | src/AbstractConfig.php:54 | a path that reaches a value that is not a map cannot go any deeper |
| ConfigTree.KeyPath | src/AbstractConfig.php:53 | the key path has at least one segment, joins back with `.` to the key, and no segment contains `.` |
| ConfigTree.KeyPathRoundTrip | src/AbstractConfig.php:53 | any non-empty list of dot-free segments is the key path of its dotted form |
| Placeholders.Token | src/AbstractConfig.php:150 | the token for a name is the name with one `%` tag on each side |
| Placeholders.MatchEndUnique | src/AbstractConfig.php:143 | at most one placeholder starts at a given index |
| Placeholders.Scan | src/AbstractConfig.php:143 | every span found is a placeholder match, and the spans are the leftmost, non-overlapping ones, with none left after the last |
| Placeholders.LeftmostUnique | src/AbstractConfig.php:143 | there is only one leftmost, non-overlapping sequence of matches, so the scanner agrees with the regex search |
| Placeholders.Names | src/AbstractConfig.php:143 | one name per match, and no names exactly when the string holds no placeholder |
| Placeholders.NamesSpellTokens | src/AbstractConfig.php:143-150 | each name is the text between its match's tags, and the match spells that name's token |
| Placeholders.NamesAreNames | src/AbstractConfig.php:143 | every name is non-empty and made only of the name class (ASCII word characters, `-`, `.`, `,` and whitespace) |
| Placeholders.NoTagNoPlaceholder | src/AbstractConfig.php:143 | a string without `%` holds no placeholder |
| Placeholders.NamesOfSingle | src/AbstractConfig.php:143 | tag-free text, one token, and tag-free text give exactly that token's name |
| Resolver.NewConfig | src/AbstractConfig.php:39-44 | a configuration is built with the given tree and built-ins and no user variables |
| Resolver.Has | src/AbstractConfig.php:79-89 | `has` is true exactly when a walk exists that finds every segment of the key as a key through nested maps; it cannot fail |
| Resolver.Selected | src/AbstractConfig.php:52-61 | no key selects the whole tree; an existing key selects the value at its path; a missing key selects the default |
| Resolver.Text | src/AbstractConfig.php:150 | the replacement text of a resolved value: strings as stored, null and `false` as the empty string, `true` as `1`, numbers as their literal, and an error naming the placeholder for lists and maps |
| Resolver.Get | src/AbstractConfig.php:49-74 | an error names the key the caller asked for; a success has no placeholder left and the shape of the selected value; a selected value without placeholders comes back unchanged |
| Resolver.ReplaceInTree | src/AbstractConfig.php:63-68 | substitution keeps the value's shape and leaves no placeholder; a value already free of placeholders is returned as is |
| Resolver.ReplaceInList | src/AbstractConfig.php:64-65 | a list keeps its length; each element keeps its shape and is resolved |
| Resolver.ReplaceInEntries | src/AbstractConfig.php:64-65 | a map keeps its length and its keys in order; each value keeps its shape and is resolved |
| Resolver.ReplaceVariables | src/AbstractConfig.php:138-156 | a successful substitution leaves no placeholder (the re-scan), and a string without placeholders is returned unchanged |
| Resolver.Resolve | src/AbstractConfig.php:146-148 | a set variable gives its text; only when none is set is the name resolved by `get` as a dotted key with a null default, whose error or value is passed on |
| ResolverFacts.ListElementwise | src/AbstractConfig.php:64-65 | a list is substituted exactly when each element is, and the results are the elements' own results in order |
| ResolverFacts.EntriesElementwise | src/AbstractConfig.php:64-65 | a map is substituted exactly when each value is; keys and positions are kept and each value is its own result |
| ResolverFacts.GetMissingKey | src/AbstractConfig.php:56-58 | a missing key gives the substituted default, and a failure there is reported against the requested key |
| ResolverFacts.GetExistingKey | src/AbstractConfig.php:52-54 | for an existing key the default plays no part, and a stored value without placeholders comes back as stored |
| ResolverFacts.GetStoredString | src/AbstractConfig.php:63-72 | a key holding a string gives that string after substitution, and a substitution failure becomes one error naming the key |
| ResolverFacts.GetWholeTree | src/AbstractConfig.php:59-61 | without a key, `get` substitutes the whole tree |
| ResolverFacts.VariableBeforeKeyPath | src/AbstractConfig.php:146-148 | a set variable is used as is and the configuration tree is not consulted at all |
| ResolverFacts.KeyPathWhenNoVariable | src/AbstractConfig.php:146-148 | with no variable of that name, a placeholder stands for the substituted value at that key; a failure is passed on; a missing key gives the empty string |
| ResolverFacts.PassStopsAtFirstFailure | src/AbstractConfig.php:144-148 | a pass fails as soon as its first name cannot be resolved |
| ResolverFacts.PassResolvesEveryName | src/AbstractConfig.php:144-151 | a pass (`ReplacePass`, the `foreach` loop) succeeds exactly when every name it was given resolves |
| ResolverFacts.PassFailsAtFirstUnresolved | src/AbstractConfig.php:144-151 | a failed pass reports the error of the first name that does not resolve, and every earlier name resolved |
| ResolverFacts.PassReplacesEveryOccurrence | src/AbstractConfig.php:150 | every occurrence of a name's token is replaced by the name's text |
| ResolverFacts.SinglePlaceholder | src/AbstractConfig.php:143-153 | one pass over a string with one placeholder, followed by the re-scan, gives the string with that token replaced everywhere |
| ResolverFacts.SelfReference | src/AbstractConfig.php:143-153 | a key whose string's first placeholder names that key, with no variable of that name, is never resolved, whatever the bound |
| ResolverFacts.GetMoreFuel | src/AbstractConfig.php:153 | one more unit of fuel changes the answer of `get` only when the fuel had run out |
| ResolverFacts.GetFuelIrrelevant | src/AbstractConfig.php:153 | once `get` answers without running out of fuel, every larger bound gives the same answer |
| Scenarios.NestedKey | tests/JsonConfigTest.php:66 | `var1.var1-1` is found through its parent map and comes back as `value1-1` |
| Scenarios.NestedReference | src/AbstractConfig.php:143-153 | a string `~~%var1.var1-1%~~+value2` resolves to `~~value1-1~~+value2`: a placeholder may name a dotted key |
| Scenarios.IndirectReference | tests/JsonConfigTest.php:67 | `get('var2')` is `~~var1.var1-1~~+value2` when `var2` holds `~~%var3%~~+value2` and `var3` the text `var1.var1-1` (the fixture file is not part of this model; this fixture is one consistent with the expected value) |
| Scenarios.HasMissingKey | tests/JsonConfigTest.php:88 | a key below a missing key is not found |
| Scenarios.HasPresentKey | tests/JsonConfigTest.php:89 | a top-level key is found |
| Scenarios.HasKeyBelowString | tests/JsonConfigTest.php:90 | a key below a string is not found, and nothing fails |
| Scenarios.UserVariableFillsPlaceholder | src/AbstractConfig.php:146-150 | a user variable fills its placeholder unless a built-in of that name is set |
| Scenarios.SelfReferenceNeverResolves | src/AbstractConfig.php:143-153 | a key `a` holding `%a%` fails with an error naming `a`, whatever the bound |
| Scenarios.PercentSignsInProse | src/AbstractConfig.php:143-150 | in `5% of 7%` the text ` of 7` is read as a placeholder name; with no such variable or key it disappears |

## Left out

- `ConfigAwareInterface` is an accessor interface with no behaviour.
- Decoding JSON, reading files, and the not-found and malformed-file errors
  belong to the loader subclass. The loader is not part of this model.
- The built-in variables come from runtime constants, including
  `system_os_family`, which exists only from PHP 7.2 on. The model takes the
  built-in table as a parameter.
- Resolver.Text: numbers keep the literal text they were written with. PHP's
  own conversion of a number to a string is not modelled.
- Resolver.Text: a list or map used as replacement text is an error naming
  the placeholder. PHP itself would give the text `Array` with a notice, or a
  `TypeError` that the `catch (\Exception)` of `get` does not catch.
- A placeholder that resolves to `null` (no variable, no such key) is
  replaced by the empty string. This is `str_replace`'s coercion of a null
  replacement, and the model states it as an assumption.
- Resolver.Get: recursion without end becomes `Err(FuelExhausted)` once the
  bound runs out. In PHP it exhausts the stack or memory.
- The path walker `b_array_traverse` is not part of this model. It is taken
  to walk through maps only, so a list is never indexed by a segment.
- `has(null)` and the `implode` of a null key inside the error message of
  `get` are left out. The model's `Has` takes a string.
- The text of the `ConfigException` message is left out. The model's
  error carries the requested key and a cause instead.
- `\w` and `\s` are taken in their ASCII (C locale) meaning. Non-ASCII
  letters are not name characters.
- Concurrent use of one configuration object is not modelled. The model
  has no mutable state.
