/**
 Go strings are immutable byte sequences, and Go compares them byte by byte.
 This module fixes that representation for every name, prefix, delimiter and
 attribute value of the model, together with the comparison and the
 substring queries the listing semantics needs.
 */
module ByteStrings {
  import opened Wrappers

  type Byte = b: int | 0 <= b < 256

  type Bytes = seq<Byte>

  predicate IsPrefix(p: Bytes, s: Bytes) {
    |p| <= |s| && s[..|p|] == p
  }

  predicate IsSuffix(t: Bytes, s: Bytes) {
    |t| <= |s| && s[|s| - |t|..] == t
  }

  /** `d` occurs in `s` starting at index `i`. */
  predicate OccursAt(d: Bytes, s: Bytes, i: int) {
    0 <= i && i + |d| <= |s| && s[i..i + |d|] == d
  }

  predicate Contains(s: Bytes, d: Bytes) {
    exists i :: 0 <= i <= |s| && OccursAt(d, s, i)
  }

  /** The first occurrence of `d` in `s` at or after index `k`. */
  function FindFrom(d: Bytes, s: Bytes, k: nat): (r: Option<nat>)
    ensures r.Some? ==> k <= r.value && OccursAt(d, s, r.value)
    ensures r.Some? ==> forall i :: k <= i < r.value ==> !OccursAt(d, s, i)
    ensures r.None? ==> forall i :: k <= i ==> !OccursAt(d, s, i)
    decreases |s| - k
  {
    if k + |d| > |s| then None
    else if OccursAt(d, s, k) then Some(k)
    else FindFrom(d, s, k + 1)
  }

  /** The first occurrence of `d` in `s`. */
  function Find(d: Bytes, s: Bytes): (r: Option<nat>)
    ensures r.None? <==> !Contains(s, d)
    ensures r.Some? ==> OccursAt(d, s, r.value)
    ensures r.Some? ==> forall i :: 0 <= i < r.value ==> !OccursAt(d, s, i)
  {
    FindFrom(d, s, 0)
  }

  /** An occurrence in a prefix is an occurrence in the whole that ends within the prefix. */
  lemma OccursInPrefix(d: Bytes, s: Bytes, k: nat, j: nat)
    requires k <= |s|
    ensures OccursAt(d, s[..k], j) <==> OccursAt(d, s, j) && j + |d| <= k
  {
  }

  /**
   When `d` first occurs in `s` at index `i`, the part of `s` that stops one
   byte short of that occurrence's end does not contain `d`.
   */
  lemma FirstOccurrenceEndsPrefix(d: Bytes, s: Bytes, i: nat)
    requires |d| > 0 && OccursAt(d, s, i)
    requires forall j :: 0 <= j < i ==> !OccursAt(d, s, j)
    ensures !Contains(s[..i + |d| - 1], d)
  {
    var k := i + |d| - 1;
    forall j | 0 <= j <= k
      ensures !OccursAt(d, s[..k], j)
    {
      OccursInPrefix(d, s, k, j);
    }
  }

  /**
   When the part of `s` that stops one byte short of `k + |d|` does not
   contain `d`, no occurrence of `d` starts before `k`.
   */
  lemma NoOccurrenceBefore(d: Bytes, s: Bytes, k: nat)
    requires |d| > 0 && k + |d| - 1 <= |s|
    requires !Contains(s[..k + |d| - 1], d)
    ensures forall j :: 0 <= j < k ==> !OccursAt(d, s, j)
  {
    forall j | 0 <= j < k
      ensures !OccursAt(d, s, j)
    {
      OccursInPrefix(d, s, k + |d| - 1, j);
    }
  }

  /** Strict byte-wise lexicographic order, the order of Go's `<` on strings. */
  predicate LexLess(a: Bytes, b: Bytes)
    decreases |a|
  {
    |b| > 0 && (|a| == 0 || a[0] < b[0] || (a[0] == b[0] && LexLess(a[1..], b[1..])))
  }

  lemma {:induction false} LexLessIrreflexive(a: Bytes)
    ensures !LexLess(a, a)
    decreases |a|
  {
    if |a| > 0 {
      LexLessIrreflexive(a[1..]);
    }
  }

  lemma {:induction false} LexLessTransitive(a: Bytes, b: Bytes, c: Bytes)
    requires LexLess(a, b) && LexLess(b, c)
    ensures LexLess(a, c)
    decreases |a|
  {
    if |a| > 0 && a[0] == b[0] && b[0] == c[0] {
      LexLessTransitive(a[1..], b[1..], c[1..]);
    }
  }

  lemma {:induction false} LexLessTotal(a: Bytes, b: Bytes)
    ensures a == b || LexLess(a, b) || LexLess(b, a)
    decreases |a|
  {
    if |a| > 0 && |b| > 0 && a[0] == b[0] {
      LexLessTotal(a[1..], b[1..]);
      if a[1..] == b[1..] {
        assert a == [a[0]] + a[1..] && b == [b[0]] + b[1..];
      }
    }
  }

  /** A proper prefix sorts first. */
  lemma {:induction false} ProperPrefixIsLess(p: Bytes, s: Bytes)
    requires IsPrefix(p, s) && p != s
    ensures LexLess(p, s)
    decreases |p|
  {
    if |p| > 0 {
      assert p[1..] == s[1..][..|p| - 1];
      ProperPrefixIsLess(p[1..], s[1..]);
    }
  }
}
