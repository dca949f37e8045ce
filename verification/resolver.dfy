/** The configuration resolver: dotted-path `Get` and `Has` over the decoded
    tree, and the recursive `%name%` substitution applied to what `Get`
    returns. Substitution carries a fuel bound: one unit per re-scan of a
    string, so a self-referencing placeholder ends in an error instead of
    recursing without end. */
module Resolver {
  import opened Wrappers
  import opened Strings
  import opened ConfigTree
  import opened Variables
  import opened Placeholders

  /** Why a substitution failed. */
  datatype Cause =
    | FuelExhausted                 // placeholders still left after the last allowed re-scan
    | NotText(name: string)         // the named placeholder resolved to a list or a map

  /** The configuration-level error `Get` reports: the key the caller asked
      for (`None` for the whole tree) and the cause underneath. */
  datatype ConfigError = ConfigError(key: Option<string>, cause: Cause)

  /** A loaded configuration: the decoded tree and the two variable tables. */
  datatype Config = Config(root: ConfigValue, vars: Tables)

  /** A configuration over `root` with the given built-in variables and no
      user variables. */
  function NewConfig(root: ConfigValue, defaults: Table): (c: Config)
    ensures c.root == root && c.vars.defaults == defaults && |c.vars.user| == 0
  {
    Config(root, NewTables(defaults))
  }

  /** Every string leaf of `v` is free of placeholders. */
  ghost predicate Resolved(v: ConfigValue) {
    match v
    case Str(s) => NoPlaceholder(s)
    case List(items) => forall k :: 0 <= k < |items| ==> Resolved(items[k])
    case Map(entries) => forall k :: 0 <= k < |entries| ==> Resolved(entries[k].value)
    case _ => true
  }

  /** The text a resolved value contributes to a string: strings as they
      are, null and `false` as the empty string, `true` as "1", numbers as
      their literal. Lists and maps have no text. */
  function Text(name: string, v: ConfigValue): (r: Result<string, Cause>)
    ensures r.Err? <==> v.List? || v.Map?
    ensures r.Err? ==> r.error == NotText(name)
    ensures v.Str? ==> r == Ok(v.s)
    ensures v.Null? ==> r == Ok("")
    ensures v.Bool? ==> r == Ok(if v.b then "1" else "")
    ensures v.Num? ==> r == Ok(v.literal)
  {
    match v
    case Null => Ok("")
    case Str(s) => Ok(s)
    case Num(literal) => Ok(literal)
    case Bool(b) => Ok(if b then "1" else "")
    case List(_) => Err(NotText(name))
    case Map(_) => Err(NotText(name))
  }

  /** `Has`: whether every segment of the dotted key is found as a key
      through nested maps. No substitution takes place and nothing fails. */
  function Has(c: Config, key: string): (r: bool)
    ensures r <==> exists walk :: IsWalk(c.root, KeyPath(key), walk)
  {
    TraverseSomeIffWalk(c.root, KeyPath(key));
    Traverse(c.root, KeyPath(key)).Some?
  }

  /** The raw value `Get` hands to substitution: the whole tree when no key
      is given, otherwise the value at the key path, or `default` when the
      path does not exist. */
  function Selected(c: Config, key: Option<string>, default: ConfigValue): (v: ConfigValue)
    ensures key.None? ==> v == c.root
    ensures key.Some? && Has(c, key.value) ==> v == Traverse(c.root, KeyPath(key.value)).value
    ensures key.Some? && !Has(c, key.value) ==> v == default
  {
    match key
    case None => c.root
    case Some(k) => Traverse(c.root, KeyPath(k)).GetOr(default)
  }

  /** `Get`: the selected value with every placeholder in its string leaves
      substituted. Any failure underneath is reported against the key the
      caller asked for. */
  function Get(c: Config, key: Option<string>, default: ConfigValue, fuel: nat): (res: Result<ConfigValue, ConfigError>)
    decreases fuel, 3, 0
    ensures res.Err? ==> res.error.key == key
    ensures res.Ok? ==> Resolved(res.value) && SameShape(Selected(c, key, default), res.value)
    ensures Resolved(Selected(c, key, default)) ==> res == Ok(Selected(c, key, default))
  {
    match ReplaceInTree(c, Selected(c, key, default), fuel)
    case Ok(v) => Ok(v)
    case Err(cause) => Err(ConfigError(key, cause))
  }

  /** Substitution applied to every string leaf of `v` (`array_walk_recursive`
      over `replaceVariables`); everything else is kept. */
  function ReplaceInTree(c: Config, v: ConfigValue, fuel: nat): (res: Result<ConfigValue, Cause>)
    decreases fuel, 2, Size(v)
    ensures res.Ok? ==> SameShape(v, res.value) && Resolved(res.value)
    ensures Resolved(v) ==> res == Ok(v)
  {
    match v
    case Str(s) =>
      var t :- ReplaceVariables(c, s, fuel);
      Ok(Str(t))
    case List(items) =>
      var out :- ReplaceInList(c, items, fuel);
      Ok(List(out))
    case Map(entries) =>
      var out :- ReplaceInEntries(c, entries, fuel);
      Ok(Map(out))
    case _ => Ok(v)
  }

  function ReplaceInList(c: Config, items: seq<ConfigValue>, fuel: nat): (res: Result<seq<ConfigValue>, Cause>)
    decreases fuel, 2, SizeList(items)
    ensures res.Ok? ==> |res.value| == |items|
    ensures res.Ok? ==> forall k :: 0 <= k < |items| ==>
      SameShape(items[k], res.value[k]) && Resolved(res.value[k])
    ensures (forall k :: 0 <= k < |items| ==> Resolved(items[k])) ==> res == Ok(items)
  {
    if items == [] then Ok([])
    else
      var head :- ReplaceInTree(c, items[0], fuel);
      var tail :- ReplaceInList(c, items[1..], fuel);
      assert forall k :: 1 <= k < |items| ==> items[k] == items[1..][k - 1];
      assert items == [items[0]] + items[1..];
      Ok([head] + tail)
  }

  function ReplaceInEntries(c: Config, entries: seq<Entry>, fuel: nat): (res: Result<seq<Entry>, Cause>)
    decreases fuel, 2, SizeEntries(entries)
    ensures res.Ok? ==> |res.value| == |entries|
    ensures res.Ok? ==> forall k :: 0 <= k < |entries| ==>
      && entries[k].key == res.value[k].key
      && SameShape(entries[k].value, res.value[k].value)
      && Resolved(res.value[k].value)
    ensures (forall k :: 0 <= k < |entries| ==> Resolved(entries[k].value)) ==> res == Ok(entries)
  {
    if entries == [] then Ok([])
    else
      var head :- ReplaceInTree(c, entries[0].value, fuel);
      var tail :- ReplaceInEntries(c, entries[1..], fuel);
      assert forall k :: 1 <= k < |entries| ==> entries[k] == entries[1..][k - 1];
      assert entries == [entries[0]] + entries[1..];
      Ok([Entry(entries[0].key, head)] + tail)
  }

  /** `replaceVariables` on one string: when the string holds placeholders,
      one pass replaces each of them, then the result is scanned again. A
      string without placeholders is returned as it is. */
  function ReplaceVariables(c: Config, s: string, fuel: nat): (res: Result<string, Cause>)
    decreases fuel, 1, 0
    ensures res.Ok? ==> NoPlaceholder(res.value)
    ensures NoPlaceholder(s) ==> res == Ok(s)
  {
    var names := Names(s);
    if names == [] then Ok(s)
    else if fuel == 0 then Err(FuelExhausted)
    else
      var t :- ReplacePass(c, s, names, fuel - 1);
      ReplaceVariables(c, t, fuel - 1)
  }

  /** One pass: for each name in order, every occurrence of its token in the
      current text is replaced by the name's resolved text. */
  function ReplacePass(c: Config, s: string, names: seq<string>, fuel: nat): (res: Result<string, Cause>)
    decreases fuel, 5, |names|
  {
    if names == [] then Ok(s)
    else
      var text :- Resolve(c, names[0], fuel);
      ReplacePass(c, ReplaceAll(s, Token(names[0]), text), names[1..], fuel)
  }

  /** The text of one placeholder: the variable of that name when one is
      set, otherwise the configuration value at that dotted key, itself
      fully substituted (null, hence empty, when the key does not exist). */
  function Resolve(c: Config, name: string, fuel: nat): (res: Result<string, Cause>)
    decreases fuel, 4, 0
    ensures GetVariable(c.vars, name, Null) != Null ==> res == Text(name, GetVariable(c.vars, name, Null))
    ensures GetVariable(c.vars, name, Null) == Null && Get(c, Some(name), Null, fuel).Err? ==>
      res == Err(Get(c, Some(name), Null, fuel).error.cause)
    ensures GetVariable(c.vars, name, Null) == Null && Get(c, Some(name), Null, fuel).Ok? ==>
      res == Text(name, Get(c, Some(name), Null, fuel).value)
  {
    var v := GetVariable(c.vars, name, Null);
    if v != Null then Text(name, v)
    else
      match Get(c, Some(name), Null, fuel)
      case Err(e) => Err(e.cause)
      case Ok(w) => Text(name, w)
  }
}
