/** The two variable namespaces of a configuration: the built-in defaults,
    fixed when the configuration is built, and the user-defined table. */
module Variables {
  import opened ConfigTree

  /** Variable name to value. */
  type Table = map<string, ConfigValue>

  /** The built-in table and the user table. */
  datatype Tables = Tables(defaults: Table, user: Table)

  /** A fresh configuration's tables: the given built-ins, no user variables. */
  function NewTables(defaults: Table): (t: Tables)
    ensures t.defaults == defaults
    ensures |t.user| == 0
  {
    Tables(defaults, map[])
  }

  /** PHP's `isset` on a table entry: present and not null. */
  predicate IsSet(table: Table, name: string) {
    name in table && table[name] != Null
  }

  /** Variable lookup with `??` semantics: the built-in entry if it is set,
      else the user entry if it is set, else the caller's default. */
  function GetVariable(t: Tables, name: string, default: ConfigValue): (r: ConfigValue)
    ensures IsSet(t.defaults, name) ==> r == t.defaults[name]
    ensures !IsSet(t.defaults, name) && IsSet(t.user, name) ==> r == t.user[name]
    ensures !IsSet(t.defaults, name) && !IsSet(t.user, name) ==> r == default
  {
    if IsSet(t.defaults, name) then t.defaults[name]
    else if IsSet(t.user, name) then t.user[name]
    else default
  }

  /** Replaces the whole user table; the built-ins stay as they are. */
  function SetVariables(t: Tables, variables: Table): (r: Tables)
    ensures r.user == variables
    ensures r.defaults == t.defaults
  {
    t.(user := variables)
  }

  /** Sets one user variable; every other entry of either table is kept. */
  function SetVariable(t: Tables, name: string, value: ConfigValue): (r: Tables)
    ensures r.defaults == t.defaults
    ensures name in r.user && r.user[name] == value
    ensures r.user.Keys == t.user.Keys + {name}
    ensures forall other :: other in t.user && other != name ==> r.user[other] == t.user[other]
  {
    t.(user := t.user[name := value])
  }

  /** A set built-in hides any user variable of the same name: whatever the
      user table holds, the lookup answers the same. */
  lemma DefaultShadowsUser(defaults: Table, user1: Table, user2: Table, name: string, default: ConfigValue)
    requires IsSet(defaults, name)
    ensures GetVariable(Tables(defaults, user1), name, default)
         == GetVariable(Tables(defaults, user2), name, default)
         == defaults[name]
  {
  }

  /** After `SetVariable(n, v)` with a non-null `v`, looking `n` up gives
      `v` unless a built-in of that name is set; other names are unaffected. */
  lemma SetVariableThenGet(t: Tables, name: string, value: ConfigValue, other: string, default: ConfigValue)
    requires value != Null
    ensures !IsSet(t.defaults, name) ==> GetVariable(SetVariable(t, name, value), name, default) == value
    ensures IsSet(t.defaults, name) ==> GetVariable(SetVariable(t, name, value), name, default) == t.defaults[name]
    ensures other != name ==>
      GetVariable(SetVariable(t, name, value), other, default) == GetVariable(t, other, default)
  {
  }

  /** After `SetVariables(v)`, lookups no longer see the previous user
      table: they depend on the built-ins and `v` alone. */
  lemma SetVariablesForgetsPrevious(t1: Tables, t2: Tables, variables: Table, name: string, default: ConfigValue)
    requires t1.defaults == t2.defaults
    ensures GetVariable(SetVariables(t1, variables), name, default)
         == GetVariable(SetVariables(t2, variables), name, default)
  {
  }
}
