/** Option, the JavaScript regular-expression character classes that the
    renderer's patterns use, and a few facts about strings. */
module Wrappers {
  datatype Option<+T> = None | Some(value: T)
}

module JsRegex {
  import opened Wrappers

  /** `\s` in an ECMAScript regular expression: the WhiteSpace and
      LineTerminator code points. */
  predicate IsSpace(c: char) {
    || c == '\t' || c == '\n' || c == '\U{B}' || c == '\U{C}' || c == '\r' || c == ' '
    || c == '\U{A0}' || c == '\U{1680}' || ('\U{2000}' <= c <= '\U{200A}')
    || c == '\U{2028}' || c == '\U{2029}' || c == '\U{202F}' || c == '\U{205F}'
    || c == '\U{3000}' || c == '\U{FEFF}'
  }

  /** The line terminators, which `.` does not match. */
  predicate IsLineTerminator(c: char) {
    c == '\n' || c == '\r' || c == '\U{2028}' || c == '\U{2029}'
  }

  /** `.` */
  predicate IsDot(c: char) { !IsLineTerminator(c) }

  /** `\d` (ASCII digits only). */
  predicate IsDigit(c: char) { '0' <= c <= '9' }

  predicate IsHash(c: char) { c == '#' }

  /** Every character of s is in the class p. */
  predicate All(s: string, p: char -> bool) {
    forall i :: 0 <= i < |s| ==> p(s[i])
  }

  /** Length of the longest prefix of s inside the class p: what a greedy
      `p*` consumes first. */
  function Run(s: string, p: char -> bool): (n: nat)
    ensures n <= |s| && All(s[..n], p)
    ensures n < |s| ==> !p(s[n])
  {
    if s == [] || !p(s[0]) then 0
    else
      var n := 1 + Run(s[1..], p);
      assert forall k :: 1 <= k < n ==> s[..n][k] == s[1..][..n - 1][k - 1];
      n
  }

  /** Any stretch s[i..j] inside the greedy run from i is in the class. */
  lemma RunCovers(s: string, p: char -> bool, i: nat, j: nat)
    requires i <= |s| && i <= j <= i + Run(s[i..], p)
    ensures All(s[i..j], p)
  {
    var n := Run(s[i..], p);
    assert forall k :: 0 <= k < j - i ==> s[i..j][k] == s[i..][..n][k];
  }

  /** The greedy run from i is the longest stretch in the class. */
  lemma RunIsLongest(s: string, p: char -> bool, i: nat, j: nat)
    requires i <= j <= |s| && All(s[i..j], p)
    ensures j <= i + Run(s[i..], p)
  {
    assert forall k :: i <= k < j ==> s[i..j][k - i] == s[k] == s[i..][k - i];
  }

  /** A stretch in the class that ends at a character outside it, or at the
      end, is the greedy run. */
  lemma RunExact(s: string, p: char -> bool, i: nat, j: nat)
    requires i <= j <= |s| && All(s[i..j], p) && (j < |s| ==> !p(s[j]))
    ensures Run(s[i..], p) == j - i
  {
    RunIsLongest(s, p, i, j);
    assert forall k :: i <= k < j ==> s[i..j][k - i] == s[k] == s[i..][k - i];
    if j < |s| {
      assert s[i..][j - i] == s[j];
    }
  }

  /** A suffix of a string in the class is in the class. */
  lemma AllSuffix(s: string, p: char -> bool, i: nat, j: nat)
    requires i <= j <= |s| && All(s[i..], p)
    ensures All(s[j..], p)
  {
    assert forall k :: j <= k < |s| ==> s[j..][k - j] == s[k] == s[i..][k - i];
  }

  lemma AllTail(s: string, p: char -> bool)
    requires s != [] && All(s, p)
    ensures All(s[1..], p)
  {
    assert forall k :: 1 <= k < |s| ==> s[1..][k - 1] == s[k];
  }

  lemma AllConcat(a: string, b: string, p: char -> bool)
    ensures All(a + b, p) <==> All(a, p) && All(b, p)
  {
    assert forall k :: 0 <= k < |a| ==> (a + b)[k] == a[k];
    assert forall k :: 0 <= k < |b| ==> (a + b)[|a| + k] == b[k];
  }

  /** pat occurs in s at position i. */
  predicate OccursAt(s: string, pat: string, i: nat) {
    i + |pat| <= |s| && s[i..i + |pat|] == pat
  }

  /** The leftmost occurrence of pat in s at or after from. */
  function FirstOccurrence(s: string, pat: string, from: nat): (r: Option<nat>)
    requires from <= |s|
    ensures r.Some? ==> from <= r.value && OccursAt(s, pat, r.value)
    ensures r.Some? ==> forall k :: from <= k < r.value ==> !OccursAt(s, pat, k)
    ensures r.None? ==> forall k :: from <= k <= |s| ==> !OccursAt(s, pat, k)
    decreases |s| - from
  {
    if OccursAt(s, pat, from) then Some(from)
    else if from == |s| then None
    else FirstOccurrence(s, pat, from + 1)
  }

  /** The last k in lo..hi with p(k): the order in which a backtracking
      matcher retries a greedy quantifier, longest choice first. */
  function LastWhere(p: nat -> bool, lo: nat, hi: nat): (r: Option<nat>)
    requires lo <= hi
    ensures r.Some? ==> lo <= r.value <= hi && p(r.value)
    decreases hi - lo
  {
    if p(hi) then Some(hi)
    else if hi == lo then None
    else LastWhere(p, lo, hi - 1)
  }

  /** LastWhere skips only choices that fail, and finds none only when every
      choice fails. */
  lemma {:induction false} LastWhereIsLast(p: nat -> bool, lo: nat, hi: nat)
    requires lo <= hi
    ensures LastWhere(p, lo, hi).Some? ==> forall k :: LastWhere(p, lo, hi).value < k <= hi ==> !p(k)
    ensures LastWhere(p, lo, hi).None? ==> forall k :: lo <= k <= hi ==> !p(k)
    decreases hi - lo
  {
    if !p(hi) && hi > lo {
      LastWhereIsLast(p, lo, hi - 1);
    }
  }

  /** a can be obtained from b by deleting characters. */
  predicate Subsequence(a: string, b: string)
    decreases |b|
  {
    if b == [] then a == []
    else (a != [] && a[0] == b[0] && Subsequence(a[1..], b[1..])) || Subsequence(a, b[1..])
  }

  lemma {:induction false} SubsequenceRefl(a: string)
    ensures Subsequence(a, a)
    decreases |a|
  {
    if a != [] { SubsequenceRefl(a[1..]); }
  }

  /** Characters put in front of the longer string keep a subsequence one. */
  lemma {:induction false} SubsequenceDropFront(a: string, c: string, b: string)
    requires Subsequence(a, b)
    ensures Subsequence(a, c + b)
    decreases |c|
  {
    if c != [] {
      SubsequenceDropFront(a, c[1..], b);
      assert (c + b)[1..] == c[1..] + b;
    } else {
      assert c + b == b;
    }
  }

  /** A common prefix keeps a subsequence one. */
  lemma {:induction false} SubsequenceKeepFront(c: string, a: string, b: string)
    requires Subsequence(a, b)
    ensures Subsequence(c + a, c + b)
    decreases |c|
  {
    if c != [] {
      SubsequenceKeepFront(c[1..], a, b);
      assert (c + a)[1..] == c[1..] + a;
      assert (c + b)[1..] == c[1..] + b;
    } else {
      assert c + a == a && c + b == b;
    }
  }

  /** Deleting the stretch s[..p] and keeping s[p..e] in front of a
      subsequence of s[e..] gives a subsequence of s. */
  lemma SubsequenceSkip(s: string, p: nat, e: nat, r: string)
    requires p <= e <= |s| && Subsequence(r, s[e..])
    ensures Subsequence(s[p..e] + r, s)
  {
    SubsequenceKeepFront(s[p..e], r, s[e..]);
    SubsequenceDropFront(s[p..e] + r, s[..p], s[p..e] + s[e..]);
    assert s[..p] + (s[p..e] + s[e..]) == s;
  }

  /** s with every occurrence of c removed. */
  function Remove(s: string, c: char): (r: string)
    ensures |r| <= |s| && c !in r
    decreases |s|
  {
    if s == [] then []
    else if s[0] == c then Remove(s[1..], c)
    else [s[0]] + Remove(s[1..], c)
  }

  lemma {:induction false} RemoveAppend(a: string, b: string, c: char)
    ensures Remove(a + b, c) == Remove(a, c) + Remove(b, c)
    decreases |a|
  {
    if a != [] {
      assert (a + b)[1..] == a[1..] + b;
      RemoveAppend(a[1..], b, c);
    } else {
      assert a + b == b;
    }
  }
}
