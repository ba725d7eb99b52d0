/** String helpers shared by the sanitizer: joining, character replacement, removal and sortedness. */
module Strings {

  /** The concatenation of `blocks`, as `joinToString("")` builds it. */
  function Concat(blocks: seq<string>): (r: string)
    ensures blocks == [] ==> r == []
  {
    if blocks == [] then [] else Concat(blocks[..|blocks| - 1]) + blocks[|blocks| - 1]
  }

  lemma ConcatAppend(blocks: seq<string>, b: string)
    ensures Concat(blocks + [b]) == Concat(blocks) + b
  {
    assert (blocks + [b])[..|blocks|] == blocks;
  }

  /** Every character `c` of `s` replaced by `f(c)`. */
  function MapChars(f: char -> char, s: string): (r: string)
    ensures |r| == |s| && forall i :: 0 <= i < |s| ==> r[i] == f(s[i])
  {
    seq(|s|, i requires 0 <= i < |s| => f(s[i]))
  }

  lemma MapCharsAppend(f: char -> char, a: string, b: string)
    ensures MapChars(f, a + b) == MapChars(f, a) + MapChars(f, b)
  {
  }

  /** Replacing characters one by one maps permutations to permutations. */
  lemma {:induction false} MapCharsPermutation(f: char -> char, a: string, b: string)
    requires multiset(a) == multiset(b)
    ensures multiset(MapChars(f, a)) == multiset(MapChars(f, b))
    decreases |a|
  {
    if a == [] {
      assert |b| == |multiset(b)| == 0;
    } else {
      assert a[0] in multiset(b);
      var k :| 0 <= k < |b| && b[k] == a[0];
      var rest := b[..k] + b[k + 1..];
      MultisetWithout(a, b, k);
      MapCharsPermutation(f, a[1..], rest);
      MapCharsCons(f, a);
      MapCharsSplit(f, b, k);
    }
  }

  /** Taking the first character of `a` out of `b` at a position holding it leaves the rest of `a`. */
  lemma MultisetWithout(a: string, b: string, k: nat)
    requires a != [] && k < |b| && b[k] == a[0] && multiset(a) == multiset(b)
    ensures multiset(a[1..]) == multiset(b[..k] + b[k + 1..])
  {
    assert b == b[..k] + [b[k]] + b[k + 1..];
    assert a == [a[0]] + a[1..];
    assert multiset(b) == multiset(b[..k]) + multiset{b[k]} + multiset(b[k + 1..]);
    assert multiset(a) == multiset{a[0]} + multiset(a[1..]);
    calc {
      multiset(a[1..]);
      multiset(a) - multiset{a[0]};
      multiset(b) - multiset{b[k]};
      multiset(b[..k]) + multiset(b[k + 1..]);
    }
  }

  lemma MapCharsCons(f: char -> char, a: string)
    requires a != []
    ensures multiset(MapChars(f, a)) == multiset{f(a[0])} + multiset(MapChars(f, a[1..]))
  {
    var m, t := MapChars(f, a), MapChars(f, a[1..]);
    assert m == [f(a[0])] + t;
  }

  /** The mapped characters of `b` are those of `b` without position `k`, and the image of `b[k]`. */
  lemma MapCharsSplit(f: char -> char, b: string, k: nat)
    requires k < |b|
    ensures multiset(MapChars(f, b)) == multiset(MapChars(f, b[..k] + b[k + 1..])) + multiset{f(b[k])}
  {
    var m, m1, m2 := MapChars(f, b), MapChars(f, b[..k]), MapChars(f, b[k + 1..]);
    assert m == m1 + [f(b[k])] + m2;
    MapCharsAppend(f, b[..k], b[k + 1..]);
  }

  /** `s` without any occurrence of `c`, as `replace("c", "")` gives it. */
  function Remove(s: string, c: char): (r: string)
    ensures |r| <= |s|
  {
    if s == [] then []
    else
      assert s == [s[0]] + s[1..];
      (if s[0] == c then [] else [s[0]]) + Remove(s[1..], c)
  }

  /** Characters in non-decreasing code order. */
  predicate Sorted(s: string) {
    forall i, j :: 0 <= i < j < |s| ==> s[i] <= s[j]
  }

  /** Whether `s` contains any of `chars`, as the sanitizer's `containsAny` asks. */
  predicate ContainsAny(s: string, chars: string) {
    exists i :: 0 <= i < |s| && s[i] in chars
  }

  lemma NoneOf(s: string, chars: string)
    requires forall i :: 0 <= i < |s| ==> s[i] !in chars
    ensures !ContainsAny(s, chars)
  {
  }

  /** The number of `c` characters at the end of `s`. */
  function TrailingCount(s: string, c: char): (n: nat)
    ensures n <= |s|
    ensures forall i :: |s| - n <= i < |s| ==> s[i] == c
    ensures n < |s| ==> s[|s| - n - 1] != c
  {
    if s == [] || s[|s| - 1] != c then 0 else TrailingCount(s[..|s| - 1], c) + 1
  }

  /** Removing `c` keeps exactly the other characters. */
  lemma {:induction false} RemoveMembers(s: string, c: char)
    ensures forall x :: x in Remove(s, c) <==> x in s && x != c
    decreases |s|
  {
    if s != [] {
      assert s == [s[0]] + s[1..];
      RemoveMembers(s[1..], c);
    }
  }

  lemma {:induction false} RemoveAppend(a: string, b: string, c: char)
    ensures Remove(a + b, c) == Remove(a, c) + Remove(b, c)
    decreases |a|
  {
    if a == [] {
      assert a + b == b;
    } else {
      assert (a + b)[1..] == a[1..] + b;
      RemoveAppend(a[1..], b, c);
    }
  }

  lemma {:induction false} RemoveAbsent(s: string, c: char)
    requires c !in s
    ensures Remove(s, c) == s
    decreases |s|
  {
    if s != [] {
      assert s == [s[0]] + s[1..];
      RemoveAbsent(s[1..], c);
    }
  }
}
