/** The decoded configuration: a tree of untyped values, and the dotted-path
    walk over it (the traversal helper `b_array_traverse`). */
module ConfigTree {
  import opened Wrappers
  import opened Strings

  /** One decoded configuration value. A map keeps its entries in source
      order; a number keeps the literal text it was written with. */
  datatype ConfigValue =
    | Null
    | Str(s: string)
    | Num(literal: string)
    | Bool(b: bool)
    | List(items: seq<ConfigValue>)
    | Map(entries: seq<Entry>)

  /** One key/value pair of a map. */
  datatype Entry = Entry(key: string, value: ConfigValue)

  /** A measure of a value that strictly exceeds that of each of its parts;
      it bounds recursion over the tree. */
  function Size(v: ConfigValue): (n: nat)
    decreases v
    ensures n >= 1
  {
    match v
    case List(items) => 1 + SizeList(items)
    case Map(entries) => 1 + SizeEntries(entries)
    case _ => 1
  }

  function SizeList(items: seq<ConfigValue>): nat
    decreases items
  {
    if items == [] then 0 else 1 + Size(items[0]) + SizeList(items[1..])
  }

  function SizeEntries(entries: seq<Entry>): nat
    decreases entries
  {
    if entries == [] then 0 else 1 + Size(entries[0].value) + SizeEntries(entries[1..])
  }

  /** No key appears twice among a map's entries, as after JSON decoding. */
  predicate KeysUnique(entries: seq<Entry>) {
    forall i, j :: 0 <= i < j < |entries| ==> entries[i].key != entries[j].key
  }

  /** The value stored under `key`, the first entry with that key. */
  function Lookup(entries: seq<Entry>, key: string): (r: Option<ConfigValue>)
    ensures r.None? <==> forall k :: 0 <= k < |entries| ==> entries[k].key != key
    ensures r.Some? ==> exists k :: 0 <= k < |entries| && entries[k] == Entry(key, r.value)
                                    && forall j :: 0 <= j < k ==> entries[j].key != key
  {
    if entries == [] then None
    else if entries[0].key == key then Some(entries[0].value)
    else
      var r := Lookup(entries[1..], key);
      assert r.Some? ==> entries[1..][0..] == entries[1..];
      r
  }

  /** With unique keys, the entry holding a key is the one found. */
  lemma {:induction false} LookupUnique(entries: seq<Entry>, k: nat)
    requires KeysUnique(entries)
    requires k < |entries|
    ensures Lookup(entries, entries[k].key) == Some(entries[k].value)
  {
    if k > 0 {
      assert entries[0].key != entries[k].key;
      var tail := entries[1..];
      assert KeysUnique(tail) by {
        forall i, j | 0 <= i < j < |tail|
          ensures tail[i].key != tail[j].key
        {
          assert tail[i] == entries[i + 1] && tail[j] == entries[j + 1];
        }
      }
      assert tail[k - 1] == entries[k];
      LookupUnique(tail, k - 1);
    }
  }

  /** Walks `path` from `v`, one map key per segment. A missing key, or a
      segment left over when the walk reaches a non-map, gives `None`. */
  function Traverse(v: ConfigValue, path: seq<string>): Option<ConfigValue>
    decreases |path|
  {
    if path == [] then Some(v)
    else
      match v
      case Map(entries) =>
        (match Lookup(entries, path[0])
         case None => None
         case Some(child) => Traverse(child, path[1..]))
      case _ => None
  }

  /** `walk` lists the values met along `path` from `v`: each one is a map
      holding the next segment as a key, and the next value is stored
      there. */
  ghost predicate IsWalk(v: ConfigValue, path: seq<string>, walk: seq<ConfigValue>) {
    && |walk| == |path| + 1
    && walk[0] == v
    && forall k :: 0 <= k < |path| ==>
         walk[k].Map? && Lookup(walk[k].entries, path[k]) == Some(walk[k + 1])
  }

  /** A walk determines the traversal's result: its last value. */
  lemma {:induction false} WalkGivesTraverse(v: ConfigValue, path: seq<string>, walk: seq<ConfigValue>)
    requires IsWalk(v, path, walk)
    ensures Traverse(v, path) == Some(walk[|path|])
    decreases |path|
  {
    if path != [] {
      assert walk[0].Map? && Lookup(walk[0].entries, path[0]) == Some(walk[1]);
      var tail := walk[1..];
      assert IsWalk(walk[1], path[1..], tail) by {
        forall k | 0 <= k < |path[1..]|
          ensures tail[k].Map? && Lookup(tail[k].entries, path[1..][k]) == Some(tail[k + 1])
        {
          assert tail[k] == walk[k + 1] && tail[k + 1] == walk[k + 2] && path[1..][k] == path[k + 1];
        }
      }
      WalkGivesTraverse(walk[1], path[1..], tail);
    }
  }

  /** A successful traversal has a walk ending at the value it found. */
  lemma {:induction false} TraverseGivesWalk(v: ConfigValue, path: seq<string>)
    requires Traverse(v, path).Some?
    ensures exists walk :: IsWalk(v, path, walk) && walk[|path|] == Traverse(v, path).value
    decreases |path|
  {
    if path == [] {
      assert IsWalk(v, path, [v]);
    } else {
      var child := Lookup(v.entries, path[0]).value;
      TraverseGivesWalk(child, path[1..]);
      var tail :| IsWalk(child, path[1..], tail) && tail[|path[1..]|] == Traverse(child, path[1..]).value;
      var walk := [v] + tail;
      assert IsWalk(v, path, walk) by {
        forall k | 0 <= k < |path|
          ensures walk[k].Map? && Lookup(walk[k].entries, path[k]) == Some(walk[k + 1])
        {
          if k > 0 {
            assert walk[k] == tail[k - 1] && walk[k + 1] == tail[k] && path[k] == path[1..][k - 1];
          }
        }
      }
      assert walk[|path|] == tail[|path[1..]|];
    }
  }

  /** Traversal succeeds exactly when every segment is found as a key through
      nested maps. */
  lemma TraverseSomeIffWalk(v: ConfigValue, path: seq<string>)
    ensures Traverse(v, path).Some? <==> exists walk :: IsWalk(v, path, walk)
  {
    if Traverse(v, path).Some? {
      TraverseGivesWalk(v, path);
    }
    if walk :| IsWalk(v, path, walk) {
      WalkGivesTraverse(v, path, walk);
    }
  }

  /** Walking `a + b` is walking `a`, then `b` from where `a` ended. */
  lemma {:induction false} TraverseAppend(v: ConfigValue, a: seq<string>, b: seq<string>)
    ensures Traverse(v, a + b) == (match Traverse(v, a)
                                   case None => None
                                   case Some(w) => Traverse(w, b))
    decreases |a|
  {
    if a == [] {
      assert a + b == b;
    } else {
      assert (a + b)[0] == a[0] && (a + b)[1..] == a[1..] + b;
      if v.Map? && Lookup(v.entries, a[0]).Some? {
        TraverseAppend(Lookup(v.entries, a[0]).value, a[1..], b);
      }
    }
  }

  /** A path that reaches a value that is not a map cannot go any deeper:
      `var5.var1` fails when `var5` holds a string. */
  lemma ThroughNonMapFails(v: ConfigValue, a: seq<string>, b: seq<string>)
    requires Traverse(v, a).Some? && !Traverse(v, a).value.Map?
    requires b != []
    ensures Traverse(v, a + b).None?
  {
    TraverseAppend(v, a, b);
  }

  /** The key path of a dotted key: the key split on every `.`. */
  function KeyPath(key: string): (path: seq<string>)
    ensures |path| >= 1
    ensures Implode(path, ".") == key
    ensures forall k :: 0 <= k < |path| ==> '.' !in path[k]
  {
    var path := Explode(key, ".");
    SegmentsHaveNoDot(path);
    path
  }

  /** Segments free of the separator string are free of the `.` character. */
  lemma SegmentsHaveNoDot(path: seq<string>)
    requires forall k :: 0 <= k < |path| ==> !Occurs(path[k], ".")
    ensures forall k :: 0 <= k < |path| ==> '.' !in path[k]
  {
    forall k | 0 <= k < |path|
      ensures '.' !in path[k]
    {
      OccursSingle(path[k], '.');
    }
  }

  /** Splitting a dotted key and joining the segments again is lossless in
      both directions. */
  lemma KeyPathRoundTrip(segments: seq<string>)
    requires |segments| >= 1
    requires forall k :: 0 <= k < |segments| ==> '.' !in segments[k]
    ensures KeyPath(Implode(segments, ".")) == segments
  {
    forall k | 0 <= k < |segments|
      ensures !Occurs(segments[k], ".")
    {
      OccursSingle(segments[k], '.');
    }
    ExplodeImplode(segments, ".");
  }

  /** Two values have the same shape when they differ at most in the text of
      string leaves: same constructors, same list lengths, same keys in the
      same order, equal non-string leaves. */
  ghost predicate SameShape(a: ConfigValue, b: ConfigValue)
    decreases a
  {
    match a
    case Str(_) => b.Str?
    case List(xs) =>
      && b.List?
      && |xs| == |b.items|
      && forall k :: 0 <= k < |xs| ==> SameShape(xs[k], b.items[k])
    case Map(xs) =>
      && b.Map?
      && |xs| == |b.entries|
      && forall k :: 0 <= k < |xs| ==> xs[k].key == b.entries[k].key && SameShape(xs[k].value, b.entries[k].value)
    case _ => a == b
  }
}
