/** The java.lang.String operations the modelled code relies on, over strings as seq<char>. */
module Text {

  const TAB: char := '\t'
  /** FileUtilities.EOL */
  const EOL: char := '\n'

  /** String.indexOf(char): the first position of c, or -1. */
  function IndexOf(s: string, c: char): (i: int)
    ensures -1 <= i < |s|
    ensures i == -1 <==> c !in s
    ensures i >= 0 ==> s[i] == c
    ensures forall j :: 0 <= j < i ==> s[j] != c
  {
    if |s| == 0 then -1
    else if s[0] == c then 0
    else
      var j := IndexOf(s[1..], c);
      assert j >= 0 ==> s[1..][..j] == s[1..j + 1];
      if j == -1 then -1 else j + 1
  }

  /** True when pat occurs in s starting at position k. */
  predicate OccursAt(s: string, pat: string, k: int) {
    0 <= k && k + |pat| <= |s| && s[k..k + |pat|] == pat
  }

  /** String.indexOf(String, fromIndex) for a non-negative fromIndex: the first occurrence of pat
      at or after from, or -1. */
  function Find(s: string, pat: string, from: nat): (i: int)
    ensures i == -1 || (from <= i && OccursAt(s, pat, i))
    decreases |s| - from
  {
    if from + |pat| > |s| then -1
    else if s[from..from + |pat|] == pat then from
    else Find(s, pat, from + 1)
  }

  /** Find returns the first occurrence: none lies between from and its result, or after from at all. */
  lemma {:induction false} FindSkips(s: string, pat: string, from: nat)
    ensures Find(s, pat, from) == -1 ==> forall k :: from <= k ==> !OccursAt(s, pat, k)
    ensures Find(s, pat, from) != -1 ==> forall k :: from <= k < Find(s, pat, from) ==> !OccursAt(s, pat, k)
    decreases |s| - from
  {
    if from + |pat| <= |s| && s[from..from + |pat|] != pat {
      FindSkips(s, pat, from + 1);
    }
  }

  /** s with every occurrence of c deleted: String.replace(c + "", ""). */
  function RemoveChar(s: string, c: char): (r: string)
    ensures c !in r
    ensures forall x :: x in r ==> x in s
  {
    if s == [] then [] else (if s[0] == c then [] else [s[0]]) + RemoveChar(s[1..], c)
  }

  /** String.replace(target, replacement) for a non-empty target: scans left to right and
      replaces each non-overlapping occurrence. Every call site passes a non-empty literal. */
  function Replace(s: string, target: string, replacement: string): string
    requires |target| > 0
    decreases |s|
  {
    if |s| < |target| then s
    else if s[..|target|] == target then replacement + Replace(s[|target|..], target, replacement)
    else [s[0]] + Replace(s[1..], target, replacement)
  }

  /** Replacing a one-character target, character by character. */
  function ReplaceChar(s: string, c: char, replacement: string): string {
    if s == [] then [] else (if s[0] == c then replacement else [s[0]]) + ReplaceChar(s[1..], c, replacement)
  }

  /** Character folding used for String.toLowerCase: ASCII letters only. */
  function LowerChar(c: char): char {
    if 'A' <= c <= 'Z' then (c as int + 32) as char else c
  }

  function ToLower(s: string): (r: string)
    ensures |r| == |s| && forall i :: 0 <= i < |s| ==> r[i] == LowerChar(s[i])
  {
    seq(|s|, i requires 0 <= i < |s| => LowerChar(s[i]))
  }

  /** n copies of c. */
  function Repeat(c: char, n: nat): (r: string)
    ensures |r| == n && forall i :: 0 <= i < n ==> r[i] == c
  {
    seq(n, _ => c)
  }

  lemma {:induction false} RemoveCharAppend(a: string, b: string, c: char)
    ensures RemoveChar(a + b, c) == RemoveChar(a, c) + RemoveChar(b, c)
  {
    if a != [] {
      assert (a + b)[1..] == a[1..] + b;
      RemoveCharAppend(a[1..], b, c);
    } else {
      assert a + b == b;
    }
  }

  lemma {:induction false} RemoveCharAbsent(s: string, c: char)
    requires c !in s
    ensures RemoveChar(s, c) == s
  {
    if s != [] { RemoveCharAbsent(s[1..], c); }
  }

  lemma {:induction false} ReplaceCharAppend(a: string, b: string, c: char, r: string)
    ensures ReplaceChar(a + b, c, r) == ReplaceChar(a, c, r) + ReplaceChar(b, c, r)
  {
    if a != [] {
      assert (a + b)[1..] == a[1..] + b;
      ReplaceCharAppend(a[1..], b, c, r);
    } else {
      assert a + b == b;
    }
  }

  /** For a one-character target, Java's replace is character-wise substitution. */
  lemma {:induction false} ReplaceOneChar(s: string, c: char, r: string)
    ensures Replace(s, [c], r) == ReplaceChar(s, c, r)
    decreases |s|
  {
    if s != [] { ReplaceOneChar(s[1..], c, r); }
  }

  /** Replacing an absent character changes nothing. */
  lemma {:induction false} ReplaceCharAbsent(s: string, c: char, r: string)
    requires c !in s
    ensures ReplaceChar(s, c, r) == s
  {
    if s != [] { ReplaceCharAbsent(s[1..], c, r); }
  }

  /** A character occurs after substitution exactly when it occurs in s and is not the replaced
      one, or it occurs in the replacement and the replaced character occurs in s. */
  lemma {:induction false} ReplaceCharMembers(s: string, c: char, r: string, x: char)
    ensures x in ReplaceChar(s, c, r) <==> (x in s && x != c) || (c in s && x in r)
  {
    if s != [] {
      ReplaceCharMembers(s[1..], c, r, x);
      assert s == [s[0]] + s[1..];
    }
  }

  /** Replacing a character with nothing deletes it. */
  lemma {:induction false} ReplaceCharByNothing(s: string, c: char)
    ensures ReplaceChar(s, c, []) == RemoveChar(s, c)
  {
    if s != [] { ReplaceCharByNothing(s[1..], c); }
  }

  /** The first occurrence at or after from is the one with none between from and it. */
  lemma {:induction false} FindIs(s: string, pat: string, from: nat, i: int)
    requires from <= i && OccursAt(s, pat, i)
    requires forall k :: from <= k < i ==> !OccursAt(s, pat, k)
    ensures Find(s, pat, from) == i
    decreases i - from
  {
    if from < i {
      assert !OccursAt(s, pat, from);
      FindIs(s, pat, from + 1, i);
    }
  }

  /** A one-character pattern occurs exactly where that character is. */
  lemma OccursAtChar(s: string, c: char, k: int)
    requires 0 <= k < |s|
    ensures OccursAt(s, [c], k) <==> s[k] == c
  {
    assert s[k..k + 1] == [s[k]];
  }

  /** A pattern whose first character is absent is not replaced. */
  lemma {:induction false} ReplaceAbsent(s: string, pat: string, r: string)
    requires |pat| > 0 && pat[0] !in s
    ensures Replace(s, pat, r) == s
    decreases |s|
  {
    if |s| >= |pat| {
      assert s[..|pat|][0] == s[0];
      ReplaceAbsent(s[1..], pat, r);
      assert [s[0]] + s[1..] == s;
    }
  }

  /** A text that is the pattern followed by text without the pattern's first character. */
  lemma ReplaceLeading(s: string, pat: string, rest: string, r: string)
    requires |pat| > 0 && s == pat + rest && pat[0] !in rest
    ensures Replace(s, pat, r) == r + rest
  {
    assert s[..|pat|] == pat;
    assert s[|pat|..] == rest;
    ReplaceAbsent(rest, pat, r);
  }

  /** A text starting with the pattern's first character but differing from it at its second,
      with that first character nowhere else. */
  lemma ReplaceMismatch(s: string, pat: string, r: string)
    requires |pat| >= 2 && |s| >= 2 && s[0] == pat[0] && pat[0] !in s[1..] && s[1] != pat[1]
    ensures Replace(s, pat, r) == s
  {
    if |s| >= |pat| {
      assert s[..|pat|][1] == s[1];
    }
    ReplaceAbsent(s[1..], pat, r);
    assert [s[0]] + s[1..] == s;
  }

  /** Between a start and the first occurrence of c after it, c does not occur. */
  lemma FindCharGap(s: string, c: char, from: nat, e: int)
    requires e == Find(s, [c], from) && e >= 0
    ensures c !in s[from..e] && s[e] == c
  {
    FindSkips(s, [c], from);
    forall k | from <= k < e
      ensures s[k] != c
    {
      OccursAtChar(s, c, k);
    }
    OccursAtChar(s, c, e);
  }

  /** When c does not occur at or after from, the rest of the text is free of it. */
  lemma FindCharNone(s: string, c: char, from: nat)
    requires Find(s, [c], from) == -1 && from <= |s|
    ensures c !in s[from..]
  {
    FindSkips(s, [c], from);
    forall k | from <= k < |s|
      ensures s[k] != c
    {
      OccursAtChar(s, c, k);
    }
  }
}
