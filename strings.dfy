/** The few operations on Python `str` that the core relies on:
    `startswith`, the substring test `p in s`, `replace(p, '')`,
    `split(c)` and `split(c, 1)`. Strings are sequences of characters. */
module Strings {

  /** `s.startswith(p)` */
  predicate StartsWith(s: string, p: string) {
    |p| <= |s| && s[..|p|] == p
  }

  /** `p` occurs in `s` at index `i`. */
  predicate OccursAt(s: string, p: string, i: int) {
    0 <= i <= |s| - |p| && s[i..i + |p|] == p
  }

  /** `p in s`: the substring test. */
  predicate Contains(s: string, p: string) {
    exists i | 0 <= i <= |s| - |p| :: OccursAt(s, p, i)
  }

  /** `s.replace(p, '')`: every occurrence of `p`, found left to right
      without overlap, is removed. */
  function ReplaceAll(s: string, p: string): (r: string)
    requires p != []
    ensures |r| <= |s|
    decreases |s|
  {
    if |s| < |p| then s
    else if StartsWith(s, p) then ReplaceAll(s[|p|..], p)
    else [s[0]] + ReplaceAll(s[1..], p)
  }

  /** The index of the first occurrence of `c` in `s`. */
  function IndexOf(s: string, c: char): (i: nat)
    requires c in s
    ensures i < |s| && s[i] == c && c !in s[..i]
  {
    if s[0] == c then 0 else 1 + IndexOf(s[1..], c)
  }

  /** `s.split(c, 1)` when `c` occurs in `s`: the text before the first `c`
      and the text after it. */
  function SplitFirst(s: string, c: char): (r: (string, string))
    requires c in s
    ensures r.0 + [c] + r.1 == s
    ensures c !in r.0
  {
    var i := IndexOf(s, c);
    assert s == s[..i] + [c] + s[i + 1..];
    (s[..i], s[i + 1..])
  }

  /** `sep.join(parts)` for a one-character separator. */
  function Join(parts: seq<string>, sep: char): string
    requires parts != []
  {
    if |parts| == 1 then parts[0] else parts[0] + [sep] + Join(parts[1..], sep)
  }

  /** `s.split(c)`: never empty, and no piece contains the separator. */
  function Split(s: string, c: char): (r: seq<string>)
    ensures r != []
    ensures forall i | 0 <= i < |r| :: c !in r[i]
    decreases |s|
  {
    if c in s then
      var (head, tail) := SplitFirst(s, c);
      [head] + Split(tail, c)
    else [s]
  }

  /** Splitting and joining again gives back the original text. */
  lemma {:induction false} JoinSplit(s: string, c: char)
    ensures Join(Split(s, c), c) == s
    decreases |s|
  {
    if c in s {
      var (head, tail) := SplitFirst(s, c);
      JoinSplit(tail, c);
    }
  }

  /** Joining pieces that do not contain the separator and splitting again
      gives back the pieces. */
  lemma {:induction false} SplitJoin(parts: seq<string>, c: char)
    requires parts != []
    requires forall i | 0 <= i < |parts| :: c !in parts[i]
    ensures Split(Join(parts, c), c) == parts
  {
    if |parts| > 1 {
      var s := Join(parts, c);
      assert s == parts[0] + [c] + Join(parts[1..], c);
      assert c in s by { assert s[|parts[0]|] == c; }
      SplitAfterFirst(parts[0], c, Join(parts[1..], c));
      SplitJoin(parts[1..], c);
    }
  }

  /** The first separator after a separator-free head is the one that
      follows the head. */
  lemma SplitAfterFirst(head: string, c: char, tail: string)
    requires c !in head
    ensures c in head + [c] + tail
    ensures SplitFirst(head + [c] + tail, c) == (head, tail)
  {
    var s := head + [c] + tail;
    assert s[|head|] == c;
    var i := IndexOf(s, c);
    assert i == |head| by {
      assert s[..|head|] == head;
      assert i <= |head| by { assert s[..i][..|head|] == s[..|head|]; }
    }
    assert s[..i] == head && s[i + 1..] == tail;
  }

  /** A text shorter than `p` has no occurrence of it. */
  lemma ShortHasNoOccurrence(s: string, p: string)
    requires |s| < |p|
    ensures !Contains(s, p)
  {
  }

  /** A text that lacks one of the characters of `p` has no occurrence of it. */
  lemma NoOccurrenceWithoutChar(s: string, p: string, c: char)
    requires c in p && c !in s
    ensures !Contains(s, p)
  {
    forall i | 0 <= i <= |s| - |p|
      ensures !OccursAt(s, p, i)
    {
      var k :| 0 <= k < |p| && p[k] == c;
      assert s[i..i + |p|][k] == s[i + k];
    }
  }

  /** An occurrence of `p` in `a + [c] + b` lies in `a` or in `b` when `c`
      is not a character of `p`. */
  lemma {:induction false} NoOccurrenceAcross(a: string, c: char, b: string, p: string)
    requires c !in p
    requires !Contains(a, p) && !Contains(b, p)
    ensures !Contains(a + [c] + b, p)
  {
    var s := a + [c] + b;
    forall i | 0 <= i <= |s| - |p|
      ensures !OccursAt(s, p, i)
    {
      if i + |p| <= |a| {
        assert s[i..i + |p|] == a[i..i + |p|];
        assert !OccursAt(a, p, i);
      } else if i > |a| {
        assert s[i..i + |p|] == b[i - |a| - 1..i - |a| - 1 + |p|];
        assert !OccursAt(b, p, i - |a| - 1);
      } else {
        assert s[i..i + |p|][|a| - i] == c;
      }
    }
  }

  /** `key + sep + value` has no occurrence of `p` when `key` is shorter than
      `p`, `sep` is not a character of `p`, and `value` has none. */
  lemma NoOccurrenceKeyValue(key: string, sep: char, value: string, p: string)
    requires |key| < |p| && sep !in p && !Contains(value, p)
    ensures !Contains(key + [sep] + value, p)
  {
    ShortHasNoOccurrence(key, p);
    NoOccurrenceAcross(key, sep, value, p);
  }

  /** Removing the occurrences of `p` from `p + rest` leaves `rest` when
      `rest` has none. */
  lemma ReplaceAllLeadingOnly(p: string, rest: string)
    requires p != [] && !Contains(rest, p)
    ensures StartsWith(p + rest, p) && Contains(p + rest, p)
    ensures ReplaceAll(p + rest, p) == rest
  {
    var s := p + rest;
    assert s[..|p|] == p && s[|p|..] == rest;
    assert OccursAt(s, p, 0);
    ReplaceAllAbsent(rest, p);
  }

  /** Removing the occurrences of `p` from a text that has none changes nothing. */
  lemma {:induction false} ReplaceAllAbsent(s: string, p: string)
    requires p != []
    requires !Contains(s, p)
    ensures ReplaceAll(s, p) == s
    decreases |s|
  {
    if |s| >= |p| {
      assert !StartsWith(s, p) by { assert s[0..|p|] == s[..|p|]; assert !OccursAt(s, p, 0); }
      assert !Contains(s[1..], p) by {
        if i :| OccursAt(s[1..], p, i) {
          assert s[1..][i..i + |p|] == s[i + 1..i + 1 + |p|];
          assert OccursAt(s, p, i + 1);
        }
      }
      ReplaceAllAbsent(s[1..], p);
    }
  }

  /** Code-point lexicographic order, the order of SQLite's BINARY collation
      on UTF-8 text: a prefix comes first, otherwise the first differing
      character decides. */
  predicate LessEq(a: string, b: string)
    decreases |a|
  {
    |a| == 0 || (|b| > 0 && (a[0] < b[0] || (a[0] == b[0] && LessEq(a[1..], b[1..]))))
  }

  /** Any two strings are ordered one way or the other. */
  lemma {:induction false} LessEqTotal(a: string, b: string)
    ensures LessEq(a, b) || LessEq(b, a)
    decreases |a|
  {
    if |a| > 0 && |b| > 0 && a[0] == b[0] {
      LessEqTotal(a[1..], b[1..]);
    }
  }

  /** The order is transitive. */
  lemma {:induction false} LessEqTransitive(a: string, b: string, c: string)
    requires LessEq(a, b) && LessEq(b, c)
    ensures LessEq(a, c)
    decreases |a|
  {
    if |a| > 0 && a[0] == b[0] && b[0] == c[0] {
      LessEqTransitive(a[1..], b[1..], c[1..]);
    }
  }

  /** Strings ordered both ways are equal. */
  lemma {:induction false} LessEqAntisymmetric(a: string, b: string)
    requires LessEq(a, b) && LessEq(b, a)
    ensures a == b
    decreases |a|
  {
    if |a| > 0 {
      LessEqAntisymmetric(a[1..], b[1..]);
      assert a == [a[0]] + a[1..] && b == [b[0]] + b[1..];
    }
  }

  /** The six characters treated as whitespace here: space, tab, line feed,
      carriage return, vertical tab and form feed. `str.strip()` removes
      more (U+001C to U+001F and non-ASCII spaces among them). */
  predicate IsSpace(c: char) {
    c == ' ' || c == '\t' || c == '\n' || c == '\r' || c == '\U{0B}' || c == '\U{0C}'
  }

  /** `s.lstrip()` */
  function TrimStart(s: string): (r: string)
    ensures r == [] || !IsSpace(r[0])
    ensures exists k | 0 <= k <= |s| :: r == s[k..] && forall i | 0 <= i < k :: IsSpace(s[i])
    decreases |s|
  {
    if s != [] && IsSpace(s[0]) then
      var r := TrimStart(s[1..]);
      ghost var k :| 0 <= k <= |s[1..]| && r == s[1..][k..] && forall i | 0 <= i < k :: IsSpace(s[1..][i]);
      assert r == s[k + 1..];
      r
    else
      assert s == s[0..];
      s
  }

  /** `s.rstrip()` */
  function TrimEnd(s: string): (r: string)
    ensures r == [] || !IsSpace(r[|r| - 1])
    ensures exists k | 0 <= k <= |s| :: r == s[..k] && forall i | k <= i < |s| :: IsSpace(s[i])
    decreases |s|
  {
    if s != [] && IsSpace(s[|s| - 1]) then
      var init := s[..|s| - 1];
      var r := TrimEnd(init);
      ghost var k :| 0 <= k <= |init| && r == init[..k] && forall i | k <= i < |init| :: IsSpace(init[i]);
      assert r == s[..k];
      r
    else
      assert s == s[..|s|];
      s
  }

  /** `s.strip()`: the text with its leading and trailing whitespace removed. */
  function Strip(s: string): (r: string)
    ensures r == [] || (!IsSpace(r[0]) && !IsSpace(r[|r| - 1]))
  {
    TrimEnd(TrimStart(s))
  }

  /** A text that neither starts nor ends with whitespace is left as it is. */
  lemma StripUnchanged(s: string)
    requires s != [] && !IsSpace(s[0]) && !IsSpace(s[|s| - 1])
    ensures Strip(s) == s
  {
    assert TrimStart(s) == s;
  }

  /** Stripping leaves nothing exactly when the text is all whitespace. */
  lemma StripEmpty(s: string)
    ensures Strip(s) == [] <==> forall i | 0 <= i < |s| :: IsSpace(s[i])
  {
    var t := TrimStart(s);
    var k :| 0 <= k <= |s| && t == s[k..] && forall i | 0 <= i < k :: IsSpace(s[i]);
    var j :| 0 <= j <= |t| && Strip(s) == t[..j] && forall i | j <= i < |t| :: IsSpace(t[i]);
    if Strip(s) == [] {
      assert j == 0;
      assert |t| == 0;
    } else if t != [] {
      assert !IsSpace(s[k]);
    }
  }
}
