/**
 * The .NET string operations the controllers rely on: `char.IsWhiteSpace`,
 * `Trim`, `string.IsNullOrEmpty` / `IsNullOrWhiteSpace`, ordinal
 * case-insensitive equality, `Contains`, and ordinal ordering.
 */
module Text {
  import opened Wrappers

  /** `char.IsWhiteSpace`: the Unicode space, line and paragraph separators plus U+0009..U+000D and U+0085. */
  predicate IsWhiteSpace(c: char) {
    || c == ' ' || ('\t' <= c <= '\r') || c == '\U{85}' || c == '\U{A0}' || c == '\U{1680}'
    || ('\U{2000}' <= c <= '\U{200A}') || c == '\U{2028}' || c == '\U{2029}'
    || c == '\U{202F}' || c == '\U{205F}' || c == '\U{3000}'
  }

  predicate AllSatisfy(s: string, white: char -> bool) {
    forall i :: 0 <= i < |s| ==> white(s[i])
  }

  /** Drops the leading characters that satisfy `white`. */
  function TrimStartWith(s: string, white: char -> bool): (r: string)
    ensures |r| <= |s| && r == s[|s| - |r|..]
    ensures AllSatisfy(s[..|s| - |r|], white)
    ensures |r| > 0 ==> !white(r[0])
  {
    if |s| > 0 && white(s[0]) then TrimStartWith(s[1..], white) else s
  }

  /** Drops the trailing characters that satisfy `white`. */
  function TrimEndWith(s: string, white: char -> bool): (r: string)
    ensures |r| <= |s| && r == s[..|r|]
    ensures AllSatisfy(s[|r|..], white)
    ensures |r| > 0 ==> !white(r[|r| - 1])
  {
    if |s| > 0 && white(s[|s| - 1]) then TrimEndWith(s[..|s| - 1], white) else s
  }

  /** The length of the leading run of `white` characters. */
  function LeadingRun(s: string, white: char -> bool): (n: nat)
    ensures n <= |s| && AllSatisfy(s[..n], white)
    ensures n < |s| ==> !white(s[n])
  {
    if |s| > 0 && white(s[0]) then
      var n := 1 + LeadingRun(s[1..], white);
      assert forall i | 1 <= i < n :: s[..n][i] == s[1..][..n - 1][i - 1];
      n
    else 0
  }

  /** Trimming the start drops exactly the leading run. */
  lemma {:induction false} TrimStartDropsRun(s: string, white: char -> bool)
    ensures TrimStartWith(s, white) == s[LeadingRun(s, white)..]
    decreases |s|
  {
    if |s| > 0 && white(s[0]) {
      TrimStartDropsRun(s[1..], white);
    }
  }

  /** Removes both the leading and the trailing run of `white` characters. */
  function TrimWith(s: string, white: char -> bool): (r: string)
    ensures |r| > 0 ==> !white(r[0]) && !white(r[|r| - 1])
  {
    var t := TrimStartWith(s, white);
    var r := TrimEndWith(t, white);
    TrimmedEnds(t, r, white);
    r
  }

  /**
   * `r` is what trimming `s` keeps: `s` is a run of `n` white characters, then
   * `r`, then nothing but white characters, and `r` neither starts nor ends white.
   */
  predicate TrimmedSlice(s: string, n: nat, r: string, white: char -> bool) {
    && n + |r| <= |s|
    && AllSatisfy(s[..n], white)
    && r == s[n..n + |r|]
    && AllSatisfy(s[n + |r|..], white)
    && (|r| > 0 ==> !white(r[0]) && !white(r[|r| - 1]))
  }

  /** Trimming keeps exactly the slice between the leading and the trailing white run. */
  lemma TrimWithShape(s: string, white: char -> bool)
    ensures TrimmedSlice(s, LeadingRun(s, white), TrimWith(s, white), white)
  {
    var t := TrimStartWith(s, white);
    var r := TrimEndWith(t, white);
    assert TrimWith(s, white) == r;
    TrimStartDropsRun(s, white);
    SliceOfSuffix(s, LeadingRun(s, white), t, r, white);
  }

  /** A prefix of the rest of `s` after a white run, followed by white characters, is a trimmed slice. */
  lemma SliceOfSuffix(s: string, n: nat, t: string, r: string, white: char -> bool)
    requires n <= |s| && AllSatisfy(s[..n], white) && t == s[n..]
    requires |r| <= |t| && r == t[..|r|]
    requires AllSatisfy(t[|r|..], white)
    requires |r| > 0 ==> !white(t[0]) && !white(r[|r| - 1])
    ensures TrimmedSlice(s, n, r, white)
  {
    assert s[n + |r|..] == t[|r|..];
    if |r| > 0 {
      assert r[0] == t[0];
    }
  }

  /** A prefix of a string that does not start white, when it does not end white, has neither white end. */
  lemma TrimmedEnds(t: string, r: string, white: char -> bool)
    requires |r| <= |t| && r == t[..|r|]
    requires |t| > 0 ==> !white(t[0])
    requires |r| > 0 ==> !white(r[|r| - 1])
    ensures |r| > 0 ==> !white(r[0]) && !white(r[|r| - 1])
  {
    if |r| > 0 {
      assert r[0] == t[0];
    }
  }

  /** A string whose ends are not white is its own trimming. */
  lemma TrimWithNoWhiteEnds(s: string, white: char -> bool)
    requires |s| > 0 ==> !white(s[0]) && !white(s[|s| - 1])
    ensures TrimWith(s, white) == s
  {
    assert TrimStartWith(s, white) == s;
    assert TrimEndWith(s, white) == s;
  }

  lemma {:induction false} TrimStartPadded(w: string, s: string, white: char -> bool)
    requires AllSatisfy(w, white)
    requires |s| > 0 && !white(s[0])
    ensures TrimStartWith(w + s, white) == s
    decreases |w|
  {
    if |w| == 0 {
      assert w + s == s;
    } else {
      assert (w + s)[1..] == w[1..] + s;
      TrimStartPadded(w[1..], s, white);
    }
  }

  lemma {:induction false} TrimEndPadded(s: string, w: string, white: char -> bool)
    requires AllSatisfy(w, white)
    requires |s| > 0 && !white(s[|s| - 1])
    ensures TrimEndWith(s + w, white) == s
    decreases |w|
  {
    if |w| == 0 {
      assert s + w == s;
    } else {
      assert (s + w)[..|s + w| - 1] == s + w[..|w| - 1];
      TrimEndPadded(s, w[..|w| - 1], white);
    }
  }

  /** Trimming removes exactly the white padding around a string with non-white ends. */
  lemma TrimWithPadded(w1: string, s: string, w2: string, white: char -> bool)
    requires AllSatisfy(w1, white) && AllSatisfy(w2, white)
    requires |s| > 0 && !white(s[0]) && !white(s[|s| - 1])
    ensures TrimWith(w1 + s + w2, white) == s
  {
    assert w1 + s + w2 == w1 + (s + w2);
    TrimStartPadded(w1, s + w2, white);
    TrimEndPadded(s, w2, white);
  }

  /** `String.Trim()`. */
  function Trim(s: string): (r: string)
    ensures |r| > 0 ==> !IsWhiteSpace(r[0]) && !IsWhiteSpace(r[|r| - 1])
  {
    TrimWith(s, IsWhiteSpace)
  }

  /** Trimming an already trimmed string changes nothing. */
  lemma {:induction false} TrimIdempotent(s: string)
    ensures Trim(Trim(s)) == Trim(s)
  {
    var t := Trim(s);
    assert TrimStartWith(t, IsWhiteSpace) == t;
    assert TrimEndWith(t, IsWhiteSpace) == t;
  }

  /** `string.IsNullOrEmpty`. */
  predicate IsNullOrEmpty(s: Option<string>) {
    s.None? || |s.value| == 0
  }

  /** `string.IsNullOrWhiteSpace`. */
  predicate IsNullOrWhiteSpace(s: Option<string>) {
    s.None? || AllSatisfy(s.value, IsWhiteSpace)
  }

  /** A non-null string is blank exactly when trimming leaves nothing. */
  lemma BlankIffTrimEmpty(s: string)
    ensures IsNullOrWhiteSpace(Some(s)) <==> Trim(s) == ""
  {
    var t := TrimStartWith(s, IsWhiteSpace);
    var r := TrimEndWith(t, IsWhiteSpace);
    assert Trim(s) == r;
    if |t| == 0 {
      assert s[..|s|] == s;
    } else {
      assert t[0] == s[|s| - |t|];
    }
  }

  /** Upper-cases ASCII letters; every other character is its own upper case here. */
  function UpperAscii(c: char): char {
    if 'a' <= c <= 'z' then (c as int - 32) as char else c
  }

  /** `a.Equals(b, StringComparison.OrdinalIgnoreCase)`, with ASCII case mapping. */
  predicate EqualsIgnoreCase(a: string, b: string) {
    |a| == |b| && forall i :: 0 <= i < |a| ==> UpperAscii(a[i]) == UpperAscii(b[i])
  }

  /** `s.StartsWith(prefix)` under ordinal comparison. */
  predicate StartsWith(s: string, prefix: string) {
    |prefix| <= |s| && s[..|prefix|] == prefix
  }

  /** `sub` occurs in `s` starting at index `i`. */
  predicate OccursAt(s: string, sub: string, i: int) {
    0 <= i <= |s| - |sub| && s[i..i + |sub|] == sub
  }

  lemma OccursAtTail(s: string, sub: string)
    requires |s| > 0
    ensures forall i | 1 <= i && OccursAt(s, sub, i) :: OccursAt(s[1..], sub, i - 1)
  {
    forall i | 1 <= i && OccursAt(s, sub, i) ensures OccursAt(s[1..], sub, i - 1) {
      assert s[1..][i - 1..i - 1 + |sub|] == s[i..i + |sub|];
    }
  }

  /** `s.Contains(sub)`: ordinal substring search. */
  function Contains(s: string, sub: string): (r: bool)
    ensures r <==> exists i :: OccursAt(s, sub, i)
    decreases |s|
  {
    if |s| < |sub| then false
    else if StartsWith(s, sub) then assert OccursAt(s, sub, 0); true
    else
      var r := Contains(s[1..], sub);
      if r then
        var j :| OccursAt(s[1..], sub, j);
        assert s[1..][j..j + |sub|] == s[j + 1..j + 1 + |sub|];
        assert OccursAt(s, sub, j + 1);
        true
      else
        OccursAtTail(s, sub);
        false
  }

  /** Ordinal `a <= b`: `a` is a prefix of `b` or is smaller at the first difference. */
  predicate LexLe(a: string, b: string)
    decreases |a|
  {
    |a| == 0 || (|b| > 0 && (a[0] < b[0] || (a[0] == b[0] && LexLe(a[1..], b[1..]))))
  }

  lemma {:induction false} LexLeTotal(a: string, b: string)
    ensures LexLe(a, b) || LexLe(b, a)
    decreases |a|
  {
    if |a| > 0 && |b| > 0 && a[0] == b[0] {
      LexLeTotal(a[1..], b[1..]);
    }
  }

  lemma {:induction false} LexLeTransitive(a: string, b: string, c: string)
    requires LexLe(a, b) && LexLe(b, c)
    ensures LexLe(a, c)
    decreases |a|
  {
    if |a| > 0 && a[0] == b[0] && b[0] == c[0] {
      LexLeTransitive(a[1..], b[1..], c[1..]);
    }
  }

  lemma {:induction false} LexLeAntisymmetric(a: string, b: string)
    requires LexLe(a, b) && LexLe(b, a)
    ensures a == b
    decreases |a|
  {
    if |a| > 0 {
      LexLeAntisymmetric(a[1..], b[1..]);
      assert a == [a[0]] + a[1..];
      assert b == [b[0]] + b[1..];
    }
  }
}
