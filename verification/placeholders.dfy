/** The placeholder syntax `%name%` and a hand-written scanner for it, with
    the leftmost, non-overlapping match order of `preg_match_all`. */
module Placeholders {

  /** The delimiter around a placeholder name. */
  const Tag: char := '%'

  /** A character the name class accepts: PCRE `\w` (ASCII letters, digits,
      `_`), `-`, `.`, `,` and `\s` (space, tab, line feed, vertical tab,
      form feed, carriage return). Case-insensitive matching adds nothing,
      since both cases of every letter are already in the class. */
  predicate NameChar(c: char) {
    || ('a' <= c <= 'z')
    || ('A' <= c <= 'Z')
    || ('0' <= c <= '9')
    || c == '_' || c == '-' || c == '.' || c == ','
    || c == ' ' || c == '\t' || c == '\n' || c == '\U{0B}' || c == '\U{0C}' || c == '\r'
  }

  /** The token that stands for `name` inside a string. */
  function Token(name: string): (t: string)
    ensures |t| == |name| + 2 && t[0] == Tag && t[|t| - 1] == Tag
    ensures t[1..|t| - 1] == name
  {
    [Tag] + name + [Tag]
  }

  /** `s[i..j + 1]` is a placeholder: a `Tag` at `i` and at `j`, and one or
      more name characters between them. */
  predicate IsMatch(s: string, i: nat, j: nat) {
    && i + 1 < j < |s|
    && s[i] == Tag
    && s[j] == Tag
    && forall k :: i < k < j ==> NameChar(s[k])
  }

  /** No placeholder starts at an index in `[lo, hi)`. */
  ghost predicate NoMatchIn(s: string, lo: nat, hi: nat) {
    forall i: nat, j: nat :: lo <= i < hi ==> !IsMatch(s, i, j)
  }

  /** `s` contains no placeholder at all. */
  ghost predicate NoPlaceholder(s: string) {
    NoMatchIn(s, 0, |s|)
  }

  /** Where a placeholder starts and ends: the indices of its two tags. */
  datatype Span = Span(start: nat, end: nat)

  /** `spans` are the placeholders a left-to-right search finds from `from`
      on: each is the leftmost match starting at or after the end of the
      previous one, and none is left after the last. */
  ghost predicate Leftmost(s: string, from: nat, spans: seq<Span>)
    decreases |spans|
  {
    if spans == [] then NoMatchIn(s, from, |s|)
    else
      && from <= spans[0].start
      && IsMatch(s, spans[0].start, spans[0].end)
      && NoMatchIn(s, from, spans[0].start)
      && Leftmost(s, spans[0].end + 1, spans[1..])
  }

  /** The end of the run of name characters that starts at `k`. */
  function RunEnd(s: string, k: nat): (e: nat)
    requires k <= |s|
    decreases |s| - k
    ensures k <= e <= |s|
    ensures forall m :: k <= m < e ==> NameChar(s[m])
    ensures e < |s| ==> !NameChar(s[e])
  {
    if k == |s| || !NameChar(s[k]) then k else RunEnd(s, k + 1)
  }

  /** A placeholder's closing tag is the first character after its opening
      tag that is not a name character. */
  lemma MatchEndsAtRunEnd(s: string, i: nat, j: nat)
    requires IsMatch(s, i, j)
    ensures RunEnd(s, i + 1) == j
  {
    var e := RunEnd(s, i + 1);
    assert e < |s| ==> !NameChar(s[e]);
  }

  /** At most one placeholder starts at a given index. */
  lemma MatchEndUnique(s: string, i: nat, j1: nat, j2: nat)
    requires IsMatch(s, i, j1) && IsMatch(s, i, j2)
    ensures j1 == j2
  {
    MatchEndsAtRunEnd(s, i, j1);
    MatchEndsAtRunEnd(s, i, j2);
  }

  /** If no placeholder starts at `from`, a leftmost sequence from
      `from + 1` is one from `from` too. */
  lemma LeftmostFromEarlier(s: string, from: nat, spans: seq<Span>)
    requires forall j: nat :: !IsMatch(s, from, j)
    requires Leftmost(s, from + 1, spans)
    ensures Leftmost(s, from, spans)
  {
  }

  /** The placeholders of `s` from index `from` on, leftmost first: at each
      index a placeholder is tried; on a match the search resumes after its
      closing tag, otherwise one index further. */
  function Scan(s: string, from: nat): (spans: seq<Span>)
    requires from <= |s|
    decreases |s| - from
    ensures forall k :: 0 <= k < |spans| ==> IsMatch(s, spans[k].start, spans[k].end)
    ensures Leftmost(s, from, spans)
  {
    if from == |s| then []
    else
      var e := if s[from] == Tag then RunEnd(s, from + 1) else from;
      if s[from] == Tag && e > from + 1 && e < |s| && s[e] == Tag then
        var rest := Scan(s, e + 1);
        assert ([Span(from, e)] + rest)[1..] == rest;
        [Span(from, e)] + rest
      else
        NoMatchAt(s, from);
        LeftmostFromEarlier(s, from, Scan(s, from + 1));
        Scan(s, from + 1)
  }

  /** When the scanner does not take a placeholder at `from`, none starts
      there. */
  lemma NoMatchAt(s: string, from: nat)
    requires from < |s|
    requires !(s[from] == Tag && RunEnd(s, from + 1) > from + 1 && RunEnd(s, from + 1) < |s|
               && s[RunEnd(s, from + 1)] == Tag)
    ensures forall j: nat :: !IsMatch(s, from, j)
  {
    forall j: nat | IsMatch(s, from, j)
      ensures false
    {
      MatchEndsAtRunEnd(s, from, j);
    }
  }

  /** There is only one leftmost sequence of placeholders, so `Scan` finds
      exactly the matches a left-to-right regex search reports. */
  lemma {:induction false} LeftmostUnique(s: string, from: nat, a: seq<Span>, b: seq<Span>)
    requires Leftmost(s, from, a) && Leftmost(s, from, b)
    ensures a == b
    decreases |a|
  {
    if a != [] && b != [] {
      assert a[0].start == b[0].start;
      MatchEndUnique(s, a[0].start, a[0].end, b[0].end);
      LeftmostUnique(s, a[0].end + 1, a[1..], b[1..]);
      assert a == [a[0]] + a[1..] && b == [b[0]] + b[1..];
    }
  }

  /** The names of the placeholders of `s`, in the order `preg_match_all`
      reports them; empty exactly when `s` holds no placeholder. */
  function Names(s: string): (names: seq<string>)
    ensures |names| == |Scan(s, 0)|
    ensures names == [] <==> NoPlaceholder(s)
  {
    var spans := Scan(s, 0);
    SpansAreTokens(s, spans);
    seq(|spans|, k requires 0 <= k < |spans| => s[spans[k].start + 1..spans[k].end])
  }

  /** Each name is the text between the tags of the placeholder found at the
      same position, and that placeholder spells the name's token. */
  lemma NamesSpellTokens(s: string)
    ensures forall k :: 0 <= k < |Names(s)| ==>
      var sp := Scan(s, 0)[k];
      Names(s)[k] == s[sp.start + 1..sp.end] && s[sp.start..sp.end + 1] == Token(Names(s)[k])
  {
    SpansAreTokens(s, Scan(s, 0));
  }

  /** Each found placeholder spells the token of its name; a non-empty scan
      means the string holds a placeholder. */
  lemma SpansAreTokens(s: string, spans: seq<Span>)
    requires forall k :: 0 <= k < |spans| ==> IsMatch(s, spans[k].start, spans[k].end)
    ensures forall k :: 0 <= k < |spans| ==>
      && spans[k].start + 1 < spans[k].end < |s|
      && s[spans[k].start..spans[k].end + 1] == Token(s[spans[k].start + 1..spans[k].end])
    ensures spans != [] ==> !NoPlaceholder(s)
  {
    forall k | 0 <= k < |spans|
      ensures s[spans[k].start..spans[k].end + 1] == Token(s[spans[k].start + 1..spans[k].end])
    {
      MatchIsToken(s, spans[k].start, spans[k].end);
    }
    if spans != [] {
      assert IsMatch(s, spans[0].start, spans[0].end);
    }
  }

  /** A match is the token of the text between its tags. */
  lemma MatchIsToken(s: string, i: nat, j: nat)
    requires IsMatch(s, i, j)
    ensures s[i..j + 1] == Token(s[i + 1..j])
  {
    assert s[i..j + 1] == [s[i]] + s[i + 1..j] + [s[j]];
  }

  /** Every placeholder name is non-empty and made of name characters. */
  lemma NamesAreNames(s: string)
    ensures forall k, c :: 0 <= k < |Names(s)| && c in Names(s)[k] ==> NameChar(c)
    ensures forall k :: 0 <= k < |Names(s)| ==> |Names(s)[k]| > 0
  {
    var spans := Scan(s, 0);
    NamesSpellTokens(s);
    forall k | 0 <= k < |Names(s)|
      ensures |Names(s)[k]| > 0
      ensures forall c :: c in Names(s)[k] ==> NameChar(c)
    {
      MatchText(s, spans[k].start, spans[k].end);
    }
  }

  /** The text between a placeholder's tags is non-empty and made of name
      characters. */
  lemma MatchText(s: string, i: nat, j: nat)
    requires IsMatch(s, i, j)
    ensures |s[i + 1..j]| > 0
    ensures forall c :: c in s[i + 1..j] ==> NameChar(c)
  {
    forall c | c in s[i + 1..j]
      ensures NameChar(c)
    {
      var m :| 0 <= m < j - i - 1 && s[i + 1..j][m] == c;
      assert s[i + 1..j][m] == s[i + 1 + m];
    }
  }

  /** A string without the tag character holds no placeholder. */
  lemma NoTagNoPlaceholder(s: string)
    requires Tag !in s
    ensures NoPlaceholder(s)
  {
    forall i: nat, j: nat | 0 <= i < |s|
      ensures !IsMatch(s, i, j)
    {
      assert s[i] in s;
    }
  }

  /** A string made of tag-free text, one placeholder, and tag-free text
      has exactly that placeholder's name. */
  lemma NamesOfSingle(pre: string, name: string, post: string)
    requires Tag !in pre && Tag !in post
    requires |name| > 0 && forall k :: 0 <= k < |name| ==> NameChar(name[k])
    ensures Names(pre + Token(name) + post) == [name]
  {
    var s := pre + Token(name) + post;
    var i, j := |pre|, |pre| + |name| + 1;
    assert s[i] == Tag && s[j] == Tag;
    assert IsMatch(s, i, j) by {
      forall k | i < k < j
        ensures NameChar(s[k])
      {
        assert s[k] == name[k - i - 1];
      }
    }
    forall p: nat, q: nat | 0 <= p < i || j + 1 <= p < |s|
      ensures !IsMatch(s, p, q)
    {
      if p < i {
        assert s[p] == pre[p] && pre[p] in pre;
      } else {
        assert s[p] == post[p - j - 1] && post[p - j - 1] in post;
      }
    }
    assert Leftmost(s, j + 1, []);
    assert Leftmost(s, 0, [Span(i, j)]);
    LeftmostUnique(s, 0, Scan(s, 0), [Span(i, j)]);
    assert s[i + 1..j] == name;
  }
}
