/**
 * The handful of Python `str` operations the mail preprocessor relies on:
 * `in` / `find`, `split(sep)`, `sep.join(parts)`, `replace(a, b)` and `strip()`.
 */
module PyStr {
  import opened Wrappers

  /** Python's `str.isspace`, which is also what the `\s` class of `re` means on str patterns. */
  predicate IsSpace(c: char) {
    || ('\t' <= c <= '\r')
    || ('\U{1C}' <= c <= ' ')
    || c == '\U{85}' || c == '\U{A0}' || c == '\U{1680}'
    || ('\U{2000}' <= c <= '\U{200A}')
    || c == '\U{2028}' || c == '\U{2029}' || c == '\U{202F}' || c == '\U{205F}' || c == '\U{3000}'
  }

  predicate AllSpace(s: string) {
    forall k :: 0 <= k < |s| ==> IsSpace(s[k])
  }

  predicate IsPrefix(p: string, s: string) {
    |p| <= |s| && s[..|p|] == p
  }

  /** `sub` occurs in `s` starting at position `k`. */
  predicate OccursAt(s: string, sub: string, k: nat) {
    k + |sub| <= |s| && s[k..k + |sub|] == sub
  }

  function FindFrom(s: string, sub: string, from: nat): (r: Option<nat>)
    requires from <= |s|
    ensures r.Some? ==> from <= r.value && OccursAt(s, sub, r.value)
    ensures r.Some? ==> forall k: nat :: from <= k < r.value ==> !OccursAt(s, sub, k)
    ensures r.None? ==> forall k: nat :: from <= k ==> !OccursAt(s, sub, k)
    decreases |s| - from
  {
    if OccursAt(s, sub, from) then Some(from)
    else if from == |s| then None
    else FindFrom(s, sub, from + 1)
  }

  /** `s.find(sub)`: the leftmost occurrence, with None standing for -1. */
  function Find(s: string, sub: string): (r: Option<nat>)
    ensures r.Some? ==> OccursAt(s, sub, r.value)
    ensures r.Some? ==> forall k: nat :: k < r.value ==> !OccursAt(s, sub, k)
    ensures r.None? ==> forall k: nat :: !OccursAt(s, sub, k)
  {
    FindFrom(s, sub, 0)
  }

  /** An occurrence at `i` with no earlier position starting like `sub` is the one `find` reports. */
  lemma FindAt(s: string, sub: string, i: nat)
    requires sub != [] && OccursAt(s, sub, i)
    requires forall k :: 0 <= k < i ==> s[k] != sub[0]
    ensures Find(s, sub) == Some(i)
  {
    forall k: nat | k < i ensures !OccursAt(s, sub, k) {
      if k + |sub| <= |s| {
        assert s[k..k + |sub|][0] == s[k];
      }
    }
  }

  /** `sub in s`; also pandas' `str.contains(sub)` for a pattern without regex metacharacters. */
  predicate Contains(s: string, sub: string) {
    Find(s, sub).Some?
  }

  lemma ContainsChar(s: string, c: char)
    ensures Contains(s, [c]) <==> c in s
  {
    if c in s {
      var k :| 0 <= k < |s| && s[k] == c;
      assert OccursAt(s, [c], k);
    }
    if Contains(s, [c]) {
      var k := Find(s, [c]).value;
      assert s[k..k + 1] == [c];
      assert s[k] == c;
    }
  }

  /** `s.split(sep)` for a non-empty separator: the pieces between the non-overlapping
      occurrences of `sep`, found left to right. */
  function Split(s: string, sep: string): (parts: seq<string>)
    requires sep != []
    ensures |parts| >= 1
    decreases |s|
  {
    match Find(s, sep)
    case None => [s]
    case Some(i) => [s[..i]] + Split(s[i + |sep|..], sep)
  }

  /** `split(sep)` has a second piece exactly when `sep` occurs. */
  lemma SplitCount(s: string, sep: string)
    requires sep != []
    ensures |Split(s, sep)| >= 2 <==> Contains(s, sep)
  {
  }

  /** `sep.join(parts)`. */
  function Join(parts: seq<string>, sep: string): string {
    if |parts| == 0 then ""
    else if |parts| == 1 then parts[0]
    else parts[0] + sep + Join(parts[1..], sep)
  }

  /** `s.replace(target, replacement)`, which Python defines as `replacement.join(s.split(target))`. */
  function Replace(s: string, target: string, replacement: string): string
    requires target != []
  {
    Join(Split(s, target), replacement)
  }

  /** Joining the pieces back with the separator gives the original string. */
  lemma {:induction false} SplitJoinRoundTrip(s: string, sep: string)
    requires sep != []
    ensures Join(Split(s, sep), sep) == s
    decreases |s|
  {
    match Find(s, sep)
    case None =>
      SplitAbsent(s, sep);
    case Some(i) =>
      var rest := s[i + |sep|..];
      SplitJoinRoundTrip(rest, sep);
      SplitAtFirst(s, sep, i);
      JoinCons(s[..i], Split(rest, sep), sep);
      Around(s, i, |sep|);
  }

  /** A slice of a suffix is a slice of the whole. */
  lemma SuffixSlice<T>(s: seq<T>, a: nat, b: nat, c: nat)
    requires a <= |s| && b <= c <= |s| - a
    ensures s[a..][b..c] == s[a + b..a + c]
  {
  }

  /** A slice of a prefix is a slice of the whole. */
  lemma PrefixSlice<T>(s: seq<T>, a: nat, b: nat, c: nat)
    requires a <= |s| && b <= c <= a
    ensures s[..a][b..c] == s[b..c]
  {
  }

  /** Where `sep` occurs, the split is the text before its first occurrence followed by the
      split of the text after it. */
  lemma SplitAtFirst(s: string, sep: string, i: nat)
    requires sep != [] && Find(s, sep) == Some(i)
    ensures i + |sep| <= |s|
    ensures Split(s, sep) == [s[..i]] + Split(s[i + |sep|..], sep)
  {
  }

  /** The first occurrence of a character: it is there, and not before. */
  lemma FindChar(s: string, c: char, i: nat)
    requires Find(s, [c]) == Some(i)
    ensures i < |s| && s[i] == c && c !in s[..i]
  {
    assert s[i..i + 1][0] == s[i];
    forall k | 0 <= k < i
      ensures s[k] != c
    {
      assert !OccursAt(s, [c], k);
      assert s[k..k + 1][0] == s[k];
    }
  }

  /** `s` cut around the `n` elements from position `i`. */
  lemma Around<T>(s: seq<T>, i: nat, n: nat)
    requires i + n <= |s|
    ensures s == s[..i] + s[i..i + n] + s[i + n..]
  {
  }

  /** Where `sep` does not occur, the split is the whole string. */
  lemma SplitAbsent(s: string, sep: string)
    requires sep != [] && Find(s, sep).None?
    ensures Split(s, sep) == [s]
  {
  }

  lemma JoinCons(head: string, rest: seq<string>, sep: string)
    requires rest != []
    ensures Join([head] + rest, sep) == head + sep + Join(rest, sep)
  {
    assert ([head] + rest)[1..] == rest;
  }

  /** The first piece of a split is the text before the first separator (or all of `s`). */
  lemma FirstPiece(s: string, sep: string)
    requires sep != []
    ensures var p := Split(s, sep)[0];
      && IsPrefix(p, s)
      && !Contains(p, sep)
      && (|p| == |s| || OccursAt(s, sep, |p|))
  {
    var p := Split(s, sep)[0];
    match Find(s, sep)
    case None =>
    case Some(i) =>
      assert p == s[..i];
      forall m: nat | m + |sep| <= |p|
        ensures !OccursAt(p, sep, m)
      {
        assert !OccursAt(s, sep, m);
        PrefixSlice(s, i, m, m + |sep|);
      }
  }

  /** No piece of a split contains the separator. */
  lemma {:induction false} PiecesAvoidSeparator(s: string, sep: string)
    requires sep != []
    ensures forall k :: 0 <= k < |Split(s, sep)| ==> !Contains(Split(s, sep)[k], sep)
    decreases |s|
  {
    FirstPiece(s, sep);
    match Find(s, sep)
    case None =>
    case Some(i) =>
      var rest := s[i + |sep|..];
      PiecesAvoidSeparator(rest, sep);
      assert Split(s, sep)[1..] == Split(rest, sep);
  }

  /** `v` is `line.split(sep)[1]`, described without split: the text after the first `sep`,
      up to the next `sep` or the end of the line. */
  predicate IsSecondField(line: string, sep: string, v: string) {
    match Find(line, sep)
    case None => false
    case Some(i) =>
      && i + |sep| + |v| <= |line|
      && line[i + |sep|..i + |sep| + |v|] == v
      && !Contains(v, sep)
      && (i + |sep| + |v| == |line| || OccursAt(line, sep, i + |sep| + |v|))
  }

  /** `v`, found right after the first `sep` and ending at the next `sep` or the end of the line,
      is the second field. */
  lemma SecondFieldAt(line: string, sep: string, i: nat, v: string)
    requires sep != [] && Find(line, sep) == Some(i)
    requires IsPrefix(v, line[i + |sep|..]) && !Contains(v, sep)
    requires |v| == |line| - i - |sep| || OccursAt(line[i + |sep|..], sep, |v|)
    ensures IsSecondField(line, sep, v)
  {
    var rest := line[i + |sep|..];
    SuffixSlice(line, i + |sep|, 0, |v|);
    if |v| < |rest| {
      SuffixSlice(line, i + |sep|, |v|, |v| + |sep|);
    }
  }

  /** `split(sep)[1]` exists exactly when `sep` occurs, and it is the second field. */
  lemma SecondField(line: string, sep: string)
    requires sep != [] && Contains(line, sep)
    ensures |Split(line, sep)| >= 2
    ensures IsSecondField(line, sep, Split(line, sep)[1])
  {
    var i := Find(line, sep).value;
    var rest := line[i + |sep|..];
    SplitAtFirst(line, sep, i);
    FirstPiece(rest, sep);
    SecondFieldAt(line, sep, i, Split(rest, sep)[0]);
  }

  /** Splitting at the only occurrence of a character gives the text on either side of it. */
  lemma SplitAtOnly(head: string, c: char, tail: string)
    requires c !in head && c !in tail
    ensures Split(head + [c] + tail, [c]) == [head, tail]
  {
    var s := head + [c] + tail;
    var i := |head|;
    assert s[i..i + 1] == [c];
    assert forall k :: 0 <= k < i ==> s[k] == head[k];
    FindAt(s, [c], i);
    assert s[..i] == head && s[i + 1..] == tail;
    ContainsChar(tail, c);
  }

  /** Every `c` replaced by `d`, position by position. */
  function Substitute(s: string, c: char, d: char): string {
    seq(|s|, k requires 0 <= k < |s| => if s[k] == c then d else s[k])
  }

  /** `s` with every `c` removed. */
  function Without(s: string, c: char): (r: string)
    ensures |r| <= |s|
    ensures forall x :: x in r <==> x in s && x != c
  {
    if s == [] then [] else (if s[0] == c then [] else [s[0]]) + Without(s[1..], c)
  }

  lemma {:induction false} WithoutAppend(a: string, b: string, c: char)
    ensures Without(a + b, c) == Without(a, c) + Without(b, c)
  {
    if a != [] {
      assert (a + b)[1..] == a[1..] + b;
      WithoutAppend(a[1..], b, c);
    } else {
      assert a + b == b;
    }
  }

  lemma {:induction false} WithoutAbsent(s: string, c: char)
    requires c !in s
    ensures Without(s, c) == s
  {
    if s != [] {
      WithoutAbsent(s[1..], c);
    }
  }

  /** Replacing where `target` never occurs changes nothing. */
  lemma ReplaceAbsent(s: string, target: string, replacement: string)
    requires target != [] && Find(s, target).None?
    ensures Replace(s, target, replacement) == s
  {
    SplitAbsent(s, target);
  }

  /** Replacing rewrites the first occurrence and continues after it. */
  lemma ReplaceStep(s: string, target: string, replacement: string, i: nat)
    requires target != [] && Find(s, target) == Some(i)
    ensures i + |target| <= |s| && s[i..i + |target|] == target
    ensures Replace(s, target, replacement) ==
      s[..i] + replacement + Replace(s[i + |target|..], target, replacement)
  {
    SplitAtFirst(s, target, i);
  }

  /** `s.replace(c, d)` for one character each substitutes `d` for every `c`. */
  lemma {:induction false} ReplaceCharIsSubstitute(s: string, c: char, d: char)
    ensures Replace(s, [c], [d]) == Substitute(s, c, d)
    decreases |s|
  {
    match Find(s, [c])
    case None =>
      ReplaceAbsent(s, [c], [d]);
      ContainsChar(s, c);
      assert Substitute(s, c, d) == s;
    case Some(i) =>
      var rest := s[i + 1..];
      ReplaceStep(s, [c], [d], i);
      ReplaceCharIsSubstitute(rest, c, d);
      FindChar(s, c, i);
      SubstituteAround(s, i, c, d);
  }

  /** Substituting around a `c` at position `i`. */
  lemma SubstituteAround(s: string, i: nat, c: char, d: char)
    requires i < |s| && s[i] == c && c !in s[..i]
    ensures Substitute(s, c, d) == s[..i] + [d] + Substitute(s[i + 1..], c, d)
  {
    assert Substitute(s[..i], c, d) == s[..i];
  }

  /** Substituting a character that does not occur changes nothing. */
  lemma SubstituteAbsent(s: string, c: char, d: char)
    requires c !in s
    ensures Substitute(s, c, d) == s
  {
  }

  /** `s.replace(c, '')` deletes every `c`. */
  lemma {:induction false} ReplaceCharByNothing(s: string, c: char)
    ensures Replace(s, [c], []) == Without(s, c)
    decreases |s|
  {
    match Find(s, [c])
    case None =>
      ReplaceAbsent(s, [c], []);
      ContainsChar(s, c);
      WithoutAbsent(s, c);
    case Some(i) =>
      var rest := s[i + 1..];
      ReplaceStep(s, [c], [], i);
      ReplaceCharByNothing(rest, c);
      FindChar(s, c, i);
      Around(s, i, 1);
      WithoutAppend(s[..i] + [c], rest, c);
      WithoutAppend(s[..i], [c], c);
      WithoutAbsent(s[..i], c);
  }

  /** Leading whitespace removed (`lstrip()`). */
  function StripLeft(s: string): (r: string)
    ensures r == [] || !IsSpace(r[0])
    decreases |s|
  {
    if s != [] && IsSpace(s[0]) then StripLeft(s[1..]) else s
  }

  /** Trailing whitespace removed (`rstrip()`). */
  function StripRight(s: string): (r: string)
    ensures r == [] || !IsSpace(r[|r| - 1])
    decreases |s|
  {
    if s != [] && IsSpace(s[|s| - 1]) then StripRight(s[..|s| - 1]) else s
  }

  /** `lstrip()` removes a prefix made only of whitespace. */
  lemma {:induction false} StripLeftShape(s: string)
    ensures |StripLeft(s)| <= |s| && StripLeft(s) == s[|s| - |StripLeft(s)|..]
    ensures AllSpace(s[..|s| - |StripLeft(s)|])
    decreases |s|
  {
    if s != [] && IsSpace(s[0]) {
      StripLeftShape(s[1..]);
    }
  }

  /** `rstrip()` removes a suffix made only of whitespace. */
  lemma {:induction false} StripRightShape(s: string)
    ensures |StripRight(s)| <= |s| && StripRight(s) == s[..|StripRight(s)|]
    ensures AllSpace(s[|StripRight(s)|..])
    decreases |s|
  {
    if s != [] && IsSpace(s[|s| - 1]) {
      var r := StripRight(s[..|s| - 1]);
      StripRightShape(s[..|s| - 1]);
      assert s[|r|..] == s[..|s| - 1][|r|..] + [s[|s| - 1]];
    }
  }

  /** Neither end of `s` is whitespace. */
  predicate IsStripped(s: string) {
    s == [] || (!IsSpace(s[0]) && !IsSpace(s[|s| - 1]))
  }

  /** `s.strip()`. */
  function Strip(s: string): (r: string)
    ensures IsStripped(r)
  {
    var l := StripLeft(s);
    StripRightShape(l);
    StripRight(l)
  }

  /** `strip()` keeps an infix of `s` and removes only whitespace around it. */
  lemma StripInfix(s: string)
    ensures var r := Strip(s);
      exists i :: 0 <= i <= |s| - |r| && s[i..i + |r|] == r && AllSpace(s[..i]) && AllSpace(s[i + |r|..])
  {
    var l := StripLeft(s);
    var r := StripRight(l);
    StripLeftShape(s);
    StripRightShape(l);
    var i := |s| - |l|;
    assert s[i..i + |r|] == r;
    assert s[i + |r|..] == l[|r|..];
  }

  lemma {:induction false} StripLeftPadded(a: string, t: string)
    requires AllSpace(a) && (t == [] || !IsSpace(t[0]))
    ensures StripLeft(a + t) == t
    decreases |a|
  {
    if a != [] {
      assert (a + t)[1..] == a[1..] + t;
      StripLeftPadded(a[1..], t);
    } else {
      assert a + t == t;
    }
  }

  lemma {:induction false} StripRightPadded(t: string, b: string)
    requires AllSpace(b) && (t == [] || !IsSpace(t[|t| - 1]))
    ensures StripRight(t + b) == t
    decreases |b|
  {
    if b != [] {
      assert (t + b)[..|t + b| - 1] == t + b[..|b| - 1];
      StripRightPadded(t, b[..|b| - 1]);
    } else {
      assert t + b == t;
    }
  }

  /** Whitespace padding on either side of an already stripped string is exactly what `strip` removes. */
  lemma StripPadded(a: string, t: string, b: string)
    requires AllSpace(a) && IsStripped(t) && AllSpace(b)
    ensures Strip(a + t + b) == t
  {
    if t == [] {
      assert a + t + b == a + b;
      assert AllSpace(a + b);
      StripLeftPadded(a + b, []);
      assert a + b + [] == a + b;
    } else {
      assert a + t + b == a + (t + b);
      StripLeftPadded(a, t + b);
      StripRightPadded(t, b);
    }
  }
}
