/**
 * Substring operations on text: `p in s`, `s.startswith(p)`, the first
 * occurrence of `p`, the piece `s.split(p)[1]`, and facts about `join`.
 */
module Strings {
  import opened Wrappers
  import opened Text

  predicate StartsWith(s: string, p: string) {
    |p| <= |s| && s[..|p|] == p
  }

  /** `p` occurs in `s` at position `i`. */
  predicate OccursAt(s: string, p: string, i: nat) {
    i + |p| <= |s| && s[i..i + |p|] == p
  }

  /** `p in s`. */
  predicate Contains(s: string, p: string) {
    exists i: nat :: i <= |s| && OccursAt(s, p, i)
  }

  /** The first occurrence of `p` in `s` at or after position `i`. */
  function FindFrom(s: string, p: string, i: nat): (r: Option<nat>)
    ensures r.Some? ==> i <= r.value && OccursAt(s, p, r.value) &&
                        forall k: nat :: i <= k < r.value ==> !OccursAt(s, p, k)
    ensures r.None? ==> forall k: nat :: i <= k ==> !OccursAt(s, p, k)
    decreases |s| - i
  {
    if i + |p| > |s| then None
    else if s[i..i + |p|] == p then Some(i)
    else FindFrom(s, p, i + 1)
  }

  /** `s.find(p)`, as an option. */
  function Find(s: string, p: string): (r: Option<nat>)
    ensures r.Some? <==> Contains(s, p)
    ensures r.Some? ==> OccursAt(s, p, r.value) && forall k: nat :: k < r.value ==> !OccursAt(s, p, k)
  {
    FindFrom(s, p, 0)
  }

  /** `s.split(p)[1]` for a non-empty `p` that occurs in `s`: the text between its first and second occurrences. */
  function SecondPiece(s: string, p: string): (r: string)
    requires |p| > 0 && Contains(s, p)
  {
    var rest := s[Find(s, p).value + |p|..];
    match Find(rest, p)
    case None => rest
    case Some(k) => rest[..k]
  }

  /** The position of the first `x` in `xs`. */
  function IndexOf(xs: seq<string>, x: string): (r: nat)
    requires x in xs
    ensures r < |xs| && xs[r] == x
  {
    if xs[0] == x then 0 else 1 + IndexOf(xs[1..], x)
  }

  /** A text contains each of its prefixes. */
  lemma StartsWithContains(s: string, p: string)
    requires StartsWith(s, p)
    ensures Find(s, p) == Some(0)
  {
    assert OccursAt(s, p, 0);
  }

  /** A text does not contain a pattern holding a character the text lacks. */
  lemma CharNotContained(s: string, p: string, c: char)
    requires c in p && c !in s
    ensures !Contains(s, p)
  {
    var k :| 0 <= k < |p| && p[k] == c;
    forall i: nat | i <= |s|
      ensures !OccursAt(s, p, i)
    {
      if i + |p| <= |s| {
        assert s[i..i + |p|][k] == s[i + k];
      }
    }
  }

  /** `sep.join(a + b)` is `sep.join(a) + sep + sep.join(b)` for non-empty `a` and `b`. */
  lemma {:induction false} JoinAppend(a: seq<string>, b: seq<string>, sep: string)
    requires |a| >= 1 && |b| >= 1
    ensures Join(a + b, sep) == Join(a, sep) + sep + Join(b, sep)
    decreases |a|
  {
    if |a| == 1 {
      assert (a + b)[1..] == b;
    } else {
      assert (a + b)[1..] == a[1..] + b;
      JoinAppend(a[1..], b, sep);
    }
  }

  /** A join of several parts is its first part, the separator and the join of the rest. */
  lemma JoinFirst(parts: seq<string>, sep: string)
    requires |parts| > 1
    ensures var t := Join(parts, sep);
            |t| >= |parts[0]| + |sep| && t[..|parts[0]|] == parts[0] && t[|parts[0]|..|parts[0]| + |sep|] == sep &&
            t[|parts[0]| + |sep|..] == Join(parts[1..], sep)
  {
    var t := Join(parts, sep);
    assert t == parts[0] + (sep + Join(parts[1..], sep));
    assert t[..|parts[0]|] == parts[0];
    assert t[|parts[0]|..] == sep + Join(parts[1..], sep);
    assert t[|parts[0]|..][..|sep|] == sep;
    assert t[|parts[0]|..][|sep|..] == Join(parts[1..], sep);
  }

  /** A join holds only characters of its parts and of the separator. */
  lemma {:induction false} JoinChars(parts: seq<string>, sep: string, c: char)
    requires c !in sep && forall i :: 0 <= i < |parts| ==> c !in parts[i]
    ensures c !in Join(parts, sep)
    decreases |parts|
  {
    if |parts| > 1 {
      JoinChars(parts[1..], sep, c);
    }
  }

  /** A join of non-empty parts starts with the first part's first character and ends with the last part's last. */
  lemma {:induction false} JoinEnds(parts: seq<string>, sep: string)
    requires |parts| >= 1 && forall i :: 0 <= i < |parts| ==> |parts[i]| > 0
    ensures |Join(parts, sep)| > 0
    ensures Join(parts, sep)[0] == parts[0][0]
    ensures Join(parts, sep)[|Join(parts, sep)| - 1] == parts[|parts| - 1][|parts[|parts| - 1]| - 1]
    decreases |parts|
  {
    if |parts| > 1 {
      JoinEnds(parts[1..], sep);
    }
  }

  /** Stripping text that neither starts nor ends with whitespace changes nothing. */
  lemma StripTrimmed(t: string)
    requires t != [] && !IsSpace(t[0]) && !IsSpace(t[|t| - 1])
    ensures Strip(t) == t
  {
    assert TrimLeft(t) == t;
  }

  /** Stripping drops a leading space put before trimmed text. */
  lemma StripLeadingSpace(t: string)
    requires t != [] && !IsSpace(t[0]) && !IsSpace(t[|t| - 1])
    ensures Strip(" " + t) == t
  {
    var u := " " + t;
    assert u[0] == ' ' && u[1..] == t;
    assert TrimLeft(t) == t;
    assert TrimLeft(u) == TrimLeft(u[1..]);
    StripTrimmed(t);
  }
}
