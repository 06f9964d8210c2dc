/** The Python string operations the to-do applications rely on, restricted
    to ASCII: `str.lower`, `str.strip`, `str.capitalize`, `in` on strings,
    `str.startswith`, and `str.split` on a one-character separator. */
module TextOps {

  /** Python's `str.isspace` on ASCII: space, \t \n \v \f \r and the four
      separators \x1c to \x1f. */
  predicate IsSpace(c: char) {
    c == ' ' || ('\t' <= c <= '\r') || ('\U{001C}' <= c <= '\U{001F}')
  }

  predicate AllSpace(s: string) {
    forall i :: 0 <= i < |s| ==> IsSpace(s[i])
  }

  /** Neither end of s is whitespace. */
  predicate IsStripped(s: string) {
    s == [] || (!IsSpace(s[0]) && !IsSpace(s[|s| - 1]))
  }

  /** Number of whitespace characters at the start of s. */
  function LeadingSpaces(s: string): (n: nat)
    ensures n <= |s|
    ensures forall i :: 0 <= i < n ==> IsSpace(s[i])
    ensures n < |s| ==> !IsSpace(s[n])
  {
    if s != [] && IsSpace(s[0]) then 1 + LeadingSpaces(s[1..]) else 0
  }

  /** Number of whitespace characters at the end of s. */
  function TrailingSpaces(s: string): (n: nat)
    ensures n <= |s|
    ensures forall i :: |s| - n <= i < |s| ==> IsSpace(s[i])
    ensures n < |s| ==> !IsSpace(s[|s| - 1 - n])
  {
    if s != [] && IsSpace(s[|s| - 1]) then 1 + TrailingSpaces(s[..|s| - 1]) else 0
  }

  /** `s.strip()`: drops the whitespace at both ends. The result is empty
      exactly when s is all whitespace, which is the test the source applies
      to a task title. */
  function Strip(s: string): (r: string)
    ensures IsStripped(r)
    ensures r == [] <==> AllSpace(s)
    ensures |r| <= |s|
  {
    var i := LeadingSpaces(s);
    if i == |s| then [] else s[i..|s| - TrailingSpaces(s)]
  }

  /** Stripping a string padded with whitespace gives back the stripped core. */
  lemma StripPadded(a: string, x: string, b: string)
    requires AllSpace(a) && AllSpace(b) && IsStripped(x)
    ensures Strip(a + x + b) == x
  {
    var s := a + x + b;
    if x == [] {
      assert s == a + b;
      assert AllSpace(s);
    } else {
      var i := LeadingSpaces(s);
      assert s[|a|] == x[0];
      assert i == |a|;
      var t := TrailingSpaces(s);
      assert s[|a| + |x| - 1] == x[|x| - 1];
      assert t == |b|;
      assert s[|a|..|a| + |x|] == x;
    }
  }

  /** A string with no whitespace at either end is left alone by strip. */
  lemma StripStripped(x: string)
    requires IsStripped(x)
    ensures Strip(x) == x
  {
    StripPadded([], x, []);
    assert [] + x + [] == x;
  }

  lemma AllSpaceAppend(a: string, b: string)
    requires AllSpace(a) && AllSpace(b)
    ensures AllSpace(a + b)
  {
    var ab := a + b;
    assert forall k :: 0 <= k < |a| ==> ab[k] == a[k];
    assert forall k :: |a| <= k < |ab| ==> ab[k] == b[k - |a|];
  }

  /** The leading and the trailing whitespace runs are whitespace. */
  lemma PaddingIsSpace(x: string)
    ensures AllSpace(x[..LeadingSpaces(x)])
    ensures AllSpace(x[|x| - TrailingSpaces(x)..])
  {
    var i, j := LeadingSpaces(x), |x| - TrailingSpaces(x);
    forall k | 0 <= k < i
      ensures IsSpace(x[..i][k])
    {
      assert x[..i][k] == x[k];
    }
    forall k | 0 <= k < |x| - j
      ensures IsSpace(x[j..][k])
    {
      assert x[j..][k] == x[j + k];
    }
  }

  /** Regrouping the tail of a concatenation. */
  lemma AppendAssoc(a: string, b: string, c: string, d: string)
    ensures a + b + c + d == a + b + (c + d)
  {
  }

  /** Every string is its stripped form between two runs of whitespace. */
  lemma StripDecompose(s: string) returns (a: string, core: string, c: string)
    ensures s == a + core + c
    ensures AllSpace(a) && AllSpace(c) && IsStripped(core)
    ensures Strip(s) == core
  {
    var i := LeadingSpaces(s);
    if i == |s| {
      a, core, c := s, [], [];
      assert s == a + core + c;
    } else {
      var j := |s| - TrailingSpaces(s);
      assert i < j by {
        assert !IsSpace(s[i]);
      }
      PaddingIsSpace(s);
      a, core, c := s[..i], s[i..j], s[j..];
      assert IsStripped(core) by {
        assert core[0] == s[i] && core[|core| - 1] == s[j - 1];
      }
      assert s == a + core + c;
      StripPadded(a, core, c);
    }
  }

  /** Whitespace added at the end does not change what strip returns. */
  lemma StripTrailing(x: string, b: string)
    requires AllSpace(b)
    ensures Strip(x + b) == Strip(x)
  {
    var a, core, c := StripDecompose(x);
    AllSpaceAppend(c, b);
    AppendAssoc(a, core, c, b);
    StripPadded(a, core, c + b);
  }

  /** strip is idempotent. */
  lemma StripIdempotent(s: string)
    ensures Strip(Strip(s)) == Strip(s)
  {
    StripStripped(Strip(s));
  }

  function LowerChar(c: char): char {
    if 'A' <= c <= 'Z' then (c as int - 'A' as int + 'a' as int) as char else c
  }

  function UpperChar(c: char): char {
    if 'a' <= c <= 'z' then (c as int - 'a' as int + 'A' as int) as char else c
  }

  predicate IsUpper(c: char) {
    'A' <= c <= 'Z'
  }

  predicate IsLowerLetter(c: char) {
    'a' <= c <= 'z'
  }

  /** `s.lower()` on ASCII letters: no upper-case letter is left, every
      character that was not one is kept, and each character keeps its
      letter, differing at most in case. */
  function Lower(s: string): (r: string)
    ensures |r| == |s|
    ensures forall i :: 0 <= i < |r| ==> !IsUpper(r[i])
    ensures forall i :: 0 <= i < |s| && !IsUpper(s[i]) ==> r[i] == s[i]
    ensures forall i :: 0 <= i < |s| ==> UpperChar(r[i]) == UpperChar(s[i])
  {
    seq(|s|, i requires 0 <= i < |s| => LowerChar(s[i]))
  }

  /** `s.capitalize()`: only the case changes, with no lower-case letter
      first and no upper-case letter after it. */
  function Capitalize(s: string): (r: string)
    ensures |r| == |s|
    ensures Lower(r) == Lower(s)
    ensures r != [] ==> !IsLowerLetter(r[0])
    ensures forall i :: 1 <= i < |r| ==> !IsUpper(r[i])
  {
    if s == [] then []
    else
      var head, tail := [UpperChar(s[0])], Lower(s[1..]);
      LowerAppend(head, tail);
      LowerAppend([s[0]], s[1..]);
      LowerIdempotent(s[1..]);
      assert Lower(head) == Lower([s[0]]);
      assert [s[0]] + s[1..] == s;
      head + tail
  }

  /** Capitalising twice is capitalising once. */
  lemma CapitalizeIdempotent(s: string)
    ensures Capitalize(Capitalize(s)) == Capitalize(s)
  {
    if s != [] {
      var c := Capitalize(s);
      assert c[1..] == Lower(s[1..]);
      LowerIdempotent(s[1..]);
    }
  }

  /** Lowering twice is lowering once. */
  lemma LowerIdempotent(s: string)
    ensures Lower(Lower(s)) == Lower(s)
  {
  }

  lemma LowerAppend(x: string, y: string)
    ensures Lower(x + y) == Lower(x) + Lower(y)
  {
    var l, r := Lower(x + y), Lower(x) + Lower(y);
    assert forall k :: 0 <= k < |x| ==> l[k] == r[k];
    assert forall k :: |x| <= k < |l| ==> (x + y)[k] == y[k - |x|] && l[k] == r[k];
  }

  /** A character is whitespace exactly when its lower-case form is. */
  lemma LowerKeepsSpace(s: string)
    ensures AllSpace(s) ==> AllSpace(Lower(s))
    ensures IsStripped(s) ==> IsStripped(Lower(s))
  {
  }

  /** Two ways of cutting the same string: a prefix p of t, and the rest. */
  lemma CutAfterPrefix(p: string, rest: string, t: string, trail: string)
    requires p + rest == t + trail && |p| <= |t|
    ensures t[..|p|] == p && rest == t[|p|..] + trail
  {
    var s := p + rest;
    assert forall k :: 0 <= k < |p| ==> t[k] == s[k] == p[k];
    assert forall k :: 0 <= k < |rest| ==> rest[k] == s[|p| + k];
  }

  /** Lowering a string lowers its prefix. */
  lemma LowerPrefix(t: string, n: nat)
    requires n <= |t|
    ensures Lower(t)[..n] == Lower(t[..n])
  {
  }

  /** Lowering does not move whitespace, so it commutes with strip. */
  lemma LowerStripCommute(s: string)
    ensures Strip(Lower(s)) == Lower(Strip(s))
  {
    var a, core, c := StripDecompose(s);
    LowerAppend(a + core, c);
    LowerAppend(a, core);
    LowerKeepsSpace(a);
    LowerKeepsSpace(core);
    LowerKeepsSpace(c);
    StripPadded(Lower(a), Lower(core), Lower(c));
  }

  predicate StartsWith(s: string, prefix: string) {
    |prefix| <= |s| && s[..|prefix|] == prefix
  }

  /** Python's `part in s`. */
  predicate Contains(s: string, part: string) {
    exists i :: 0 <= i <= |s| && StartsWith(s[i..], part)
  }

  /** The empty string is in every string (so an empty query hides nothing). */
  lemma ContainsEmpty(s: string)
    ensures Contains(s, "")
  {
    assert StartsWith(s[0..], "");
  }

  /** Lowering both sides keeps a containment: matching on lowered text and
      query never loses a match that the exact text had. */
  lemma ContainsLower(s: string, part: string)
    requires Contains(s, part)
    ensures Contains(Lower(s), Lower(part))
  {
    var i :| 0 <= i <= |s| && StartsWith(s[i..], part);
    assert Lower(s)[i..][..|part|] == Lower(part);
    assert StartsWith(Lower(s)[i..], Lower(part));
  }

  /** Position of the first c in s. */
  function FirstIndexOf(s: string, c: char): (i: nat)
    requires c in s
    ensures i < |s| && s[i] == c && c !in s[..i]
  {
    if s[0] == c then 0 else 1 + FirstIndexOf(s[1..], c)
  }

  /** `s.split(sep)` for a one-character separator: at least one part, and
      no part contains the separator. */
  function Split(s: string, sep: char): (parts: seq<string>)
    ensures |parts| >= 1
    ensures forall j :: 0 <= j < |parts| ==> sep !in parts[j]
    decreases |s|
  {
    if sep in s then
      var i := FirstIndexOf(s, sep);
      [s[..i]] + Split(s[i + 1..], sep)
    else [s]
  }

  /** `sep.join(parts)`. */
  function Join(parts: seq<string>, sep: char): string
  {
    if parts == [] then []
    else if |parts| == 1 then parts[0]
    else parts[0] + [sep] + Join(parts[1..], sep)
  }

  /** Splitting at the first separator, wherever it is. */
  lemma SplitAt(s: string, sep: char, i: nat)
    requires i < |s| && s[i] == sep && sep !in s[..i]
    ensures Split(s, sep) == [s[..i]] + Split(s[i + 1..], sep)
  {
  }

  /** Splitting a + [sep] + b where a's first separator is at i. */
  lemma SplitAtFirstOfLeft(a: string, sep: char, b: string, i: nat)
    requires i < |a| && a[i] == sep && sep !in a[..i]
    ensures Split(a + [sep] + b, sep) == [a[..i]] + Split(a[i + 1..] + [sep] + b, sep)
  {
    var s := a + [sep] + b;
    assert s[..i] == a[..i];
    assert s[i + 1..] == a[i + 1..] + [sep] + b;
    SplitAt(s, sep, i);
  }

  /** Splitting a + [sep] + b where a holds no separator. */
  lemma SplitAtJoint(a: string, sep: char, b: string)
    requires sep !in a
    ensures Split(a, sep) == [a]
    ensures Split(a + [sep] + b, sep) == [a] + Split(b, sep)
  {
    var s := a + [sep] + b;
    assert s[..|a|] == a && s[|a| + 1..] == b;
    SplitAt(s, sep, |a|);
  }

  lemma ConsAppend<T>(x: T, p: seq<T>, q: seq<T>)
    ensures [x] + (p + q) == ([x] + p) + q
  {
  }

  /** Splitting at a separator splits both sides: the parts of a + [sep] + b
      are the parts of a followed by the parts of b. */
  lemma {:induction false} SplitAppend(a: string, sep: char, b: string)
    ensures Split(a + [sep] + b, sep) == Split(a, sep) + Split(b, sep)
    decreases |a|
  {
    if sep in a {
      var i := FirstIndexOf(a, sep);
      var tail := a[i + 1..];
      SplitAt(a, sep, i);
      SplitAtFirstOfLeft(a, sep, b, i);
      SplitAppend(tail, sep, b);
      ConsAppend(a[..i], Split(tail, sep), Split(b, sep));
    } else {
      SplitAtJoint(a, sep, b);
    }
  }

  /** strip removes characters and adds none. */
  lemma StripKeepsOut(s: string, c: char)
    requires c !in s
    ensures c !in Strip(s)
  {
    var a, core, b := StripDecompose(s);
    assert forall k :: 0 <= k < |core| ==> core[k] == s[|a| + k];
  }

  /** Joining the parts of a split gives back the original string. */
  lemma {:induction false} JoinSplit(s: string, sep: char)
    ensures Join(Split(s, sep), sep) == s
    decreases |s|
  {
    if sep in s {
      var i := FirstIndexOf(s, sep);
      var parts := Split(s, sep);
      assert parts[1..] == Split(s[i + 1..], sep);
      assert Join(parts, sep) == s[..i] + [sep] + Join(parts[1..], sep);
      JoinSplit(s[i + 1..], sep);
      assert s == s[..i] + [sep] + s[i + 1..];
    }
  }

  /** The first separator of a + [sep] + rest is the one after a, when a has none. */
  lemma FirstSeparator(a: string, sep: char, rest: string)
    requires sep !in a
    ensures FirstIndexOf(a + [sep] + rest, sep) == |a|
  {
    var s := a + [sep] + rest;
    var i := FirstIndexOf(s, sep);
    assert s[|a|] == sep;
    assert s[..|a|] == a;
  }

  /** Splitting a join of separator-free parts gives back the parts. */
  lemma {:induction false} SplitJoin(parts: seq<string>, sep: char)
    requires |parts| >= 1
    requires forall j :: 0 <= j < |parts| ==> sep !in parts[j]
    ensures Split(Join(parts, sep), sep) == parts
    decreases |parts|
  {
    if |parts| > 1 {
      var head, tail := parts[0], parts[1..];
      var rest := Join(tail, sep);
      var s := head + [sep] + rest;
      assert Join(parts, sep) == s;
      assert sep !in head;
      FirstSeparator(head, sep, rest);
      assert s[|head|] == sep;
      assert s[..|head|] == head;
      assert s[|head| + 1..] == rest;
      assert Split(s, sep) == [head] + Split(rest, sep);
      SplitJoin(tail, sep);
      assert parts == [head] + tail;
    }
  }
}
