/** The PHP string primitives the resolver relies on: `strpos`, `explode`,
    `implode` and `str_replace`, over strings as sequences of characters. */
module Strings {
  import opened Wrappers

  /** `pat` occurs in `s` starting at index `i`. */
  predicate OccursAt(s: string, pat: string, i: nat) {
    i + |pat| <= |s| && s[i..i + |pat|] == pat
  }

  /** `pat` occurs somewhere in `s`. */
  ghost predicate Occurs(s: string, pat: string) {
    exists i: nat :: OccursAt(s, pat, i)
  }

  /** A one-character pattern occurs exactly when the character does. */
  lemma OccursSingle(s: string, c: char)
    ensures Occurs(s, [c]) <==> c in s
  {
    if c in s {
      var i :| 0 <= i < |s| && s[i] == c;
      assert s[i..i + 1] == [c];
      assert OccursAt(s, [c], i);
    }
    if Occurs(s, [c]) {
      var i: nat :| OccursAt(s, [c], i);
      assert s[i] == s[i..i + 1][0];
    }
  }

  /** The leftmost index at or after `from` where `pat` occurs (`strpos`). */
  function IndexOf(s: string, pat: string, from: nat): (r: Option<nat>)
    decreases |s| - from
    ensures r.Some? ==> from <= r.value && OccursAt(s, pat, r.value)
    ensures r.Some? ==> forall i: nat :: from <= i < r.value ==> !OccursAt(s, pat, i)
    ensures r.None? ==> forall i: nat :: from <= i ==> !OccursAt(s, pat, i)
  {
    if from + |pat| > |s| then None
    else if s[from..from + |pat|] == pat then Some(from)
    else IndexOf(s, pat, from + 1)
  }

  /** Joins `parts` with `glue` between consecutive parts (`implode`). */
  function Implode(parts: seq<string>, glue: string): string
  {
    if |parts| == 0 then ""
    else if |parts| == 1 then parts[0]
    else parts[0] + glue + Implode(parts[1..], glue)
  }

  /** A prefix of `s` that ends before the leftmost occurrence of `pat` does
      not contain `pat`. */
  lemma PrefixBeforeFirstOccurrence(s: string, pat: string, i: nat)
    requires |pat| > 0
    requires i <= |s|
    requires forall j: nat :: j < i ==> !OccursAt(s, pat, j)
    ensures !Occurs(s[..i], pat)
  {
    forall j: nat | OccursAt(s[..i], pat, j)
      ensures false
    {
      assert s[..i][j..j + |pat|] == s[j..j + |pat|];
      assert OccursAt(s, pat, j);
    }
  }

  /** Splits `s` at every leftmost, non-overlapping occurrence of `sep`
      (`explode`). Gluing the parts back with `sep` gives `s` again, and no
      part contains `sep`. */
  function Explode(s: string, sep: string): (parts: seq<string>)
    requires |sep| > 0
    decreases |s|
    ensures |parts| >= 1
    ensures Implode(parts, sep) == s
    ensures forall k :: 0 <= k < |parts| ==> !Occurs(parts[k], sep)
  {
    match IndexOf(s, sep, 0)
    case None =>
      PrefixBeforeFirstOccurrence(s, sep, |s|);
      assert s[..|s|] == s;
      [s]
    case Some(i) =>
      PrefixBeforeFirstOccurrence(s, sep, i);
      var rest := Explode(s[i + |sep|..], sep);
      assert s == s[..i] + sep + s[i + |sep|..];
      assert ([s[..i]] + rest)[1..] == rest;
      [s[..i]] + rest
  }

  /** With a one-character separator, exploding an imploded list of
      separator-free parts gives the parts back. */
  lemma {:induction false} ExplodeImplode(parts: seq<string>, sep: string)
    requires |sep| == 1
    requires |parts| >= 1
    requires forall k :: 0 <= k < |parts| ==> !Occurs(parts[k], sep)
    ensures Explode(Implode(parts, sep), sep) == parts
    decreases |parts|
  {
    var s := Implode(parts, sep);
    var p := parts[0];
    if |parts| == 1 {
      assert s == p;
    } else {
      var t := Implode(parts[1..], sep);
      assert s == p + sep + t;
      assert OccursAt(s, sep, |p|) by {
        assert s[|p|..|p| + 1] == sep;
      }
      match IndexOf(s, sep, 0)
      case None =>
      case Some(i) =>
        if i < |p| {
          assert s[i..i + 1] == p[i..i + 1];
          assert OccursAt(p, sep, i);
          assert Occurs(p, sep);
        }
        assert i == |p|;
        assert s[..i] == p;
        assert s[i + |sep|..] == t;
        ExplodeImplode(parts[1..], sep);
        assert parts == [p] + parts[1..];
    }
  }

  /** Every leftmost, non-overlapping occurrence of `pat` in `s` replaced by
      `rep`, scanning left to right (`str_replace` with a string search). */
  function ReplaceAll(s: string, pat: string, rep: string): string
    requires |pat| > 0
    decreases |s|
  {
    if |s| < |pat| then s
    else if OccursAt(s, pat, 0) then rep + ReplaceAll(s[|pat|..], pat, rep)
    else [s[0]] + ReplaceAll(s[1..], pat, rep)
  }

  /** Text before the first possible occurrence is copied unchanged. */
  lemma {:induction false} ReplaceAllCopiesPrefix(s: string, pat: string, rep: string, i: nat)
    requires |pat| > 0
    requires i <= |s|
    requires forall j: nat :: j < i ==> !OccursAt(s, pat, j)
    ensures ReplaceAll(s, pat, rep) == s[..i] + ReplaceAll(s[i..], pat, rep)
    decreases i
  {
    if i == 0 {
      assert s[i..] == s;
    } else if |s| < |pat| {
      assert |s[i..]| < |pat|;
      assert s[..i] + s[i..] == s;
    } else {
      assert !OccursAt(s, pat, 0);
      NoOccurrenceInTail(s, pat, i);
      ReplaceAllCopiesPrefix(s[1..], pat, rep, i - 1);
      ConsPrefix(s, i, ReplaceAll(s[i..], pat, rep));
    }
  }

  /** Re-attaching the first character to a prefix of the tail. */
  lemma ConsPrefix(s: string, i: nat, rest: string)
    requires 0 < i <= |s|
    ensures s[1..][i - 1..] == s[i..]
    ensures [s[0]] + (s[1..][..i - 1] + rest) == s[..i] + rest
  {
    assert s[1..][..i - 1] == s[1..i];
    assert [s[0]] + s[1..i] == s[..i];
  }

  /** Dropping the first character shifts every occurrence one place left. */
  lemma NoOccurrenceInTail(s: string, pat: string, i: nat)
    requires 0 < i <= |s|
    requires forall j: nat :: j < i ==> !OccursAt(s, pat, j)
    ensures forall j: nat :: j < i - 1 ==> !OccursAt(s[1..], pat, j)
  {
    forall j: nat | j < i - 1
      ensures !OccursAt(s[1..], pat, j)
    {
      assert !OccursAt(s, pat, j + 1);
      if j + |pat| <= |s| - 1 {
        assert s[1..][j..j + |pat|] == s[j + 1..j + 1 + |pat|];
      }
    }
  }

  /** `str_replace` agrees with the `implode(rep, explode(pat, s))` reading:
      the text is cut at each occurrence of `pat` and re-glued with `rep`. */
  lemma {:induction false} ReplaceAllIsImplodeExplode(s: string, pat: string, rep: string)
    requires |pat| > 0
    ensures ReplaceAll(s, pat, rep) == Implode(Explode(s, pat), rep)
    decreases |s|
  {
    match IndexOf(s, pat, 0)
    case None =>
      ReplaceAllCopiesPrefix(s, pat, rep, |s|);
      assert s[..|s|] == s;
      assert ReplaceAll(s[|s|..], pat, rep) == "";
    case Some(i) =>
      ReplaceAllCopiesPrefix(s, pat, rep, i);
      var u := s[i..];
      assert u[0..|pat|] == s[i..i + |pat|];
      assert OccursAt(u, pat, 0);
      assert u[|pat|..] == s[i + |pat|..];
      ReplaceAllIsImplodeExplode(s[i + |pat|..], pat, rep);
      var rest := Explode(s[i + |pat|..], pat);
      assert ([s[..i]] + rest)[1..] == rest;
  }

  /** A string that does not contain the pattern is left unchanged. */
  lemma ReplaceAllAbsent(s: string, pat: string, rep: string)
    requires |pat| > 0
    requires !Occurs(s, pat)
    ensures ReplaceAll(s, pat, rep) == s
  {
    ReplaceAllIsImplodeExplode(s, pat, rep);
  }

  /** A string with a single occurrence of `pat`, which no earlier position
      could start (the text before it lacks `pat`'s first character), has
      that one occurrence replaced. */
  lemma ReplaceAllSingle(pre: string, pat: string, post: string, rep: string)
    requires |pat| > 0
    requires pat[0] !in pre
    requires !Occurs(post, pat)
    ensures ReplaceAll(pre + pat + post, pat, rep) == pre + rep + post
  {
    var s := pre + pat + post;
    forall j: nat | j < |pre|
      ensures !OccursAt(s, pat, j)
    {
      assert s[j] == pre[j] && pre[j] in pre;
    }
    ReplaceAllCopiesPrefix(s, pat, rep, |pre|);
    var u := s[|pre|..];
    assert u == pat + post;
    assert OccursAt(u, pat, 0) by {
      assert u[0..|pat|] == pat;
    }
    assert u[|pat|..] == post;
    ReplaceAllAbsent(post, pat, rep);
    assert s[..|pre|] == pre;
  }
}
