/**
  Small vocabulary shared by the browser client and the server model: an
  optional value, the string operations both sides lean on (last index of a
  character, ASCII lower-casing, JavaScript's clamping `substring`) and an
  order-preserving filter with the lemmas that pin down what it keeps.
 */
module Util {

  datatype Option<+T> = None | Some(value: T)

  /** Index of the last occurrence of `c` in `s`, or -1 when there is none
      (JavaScript's `lastIndexOf`, Python's `rfind`). */
  function LastIndexOf(s: string, c: char): (r: int)
    ensures -1 <= r < |s|
    ensures r == -1 <==> c !in s
    ensures 0 <= r ==> s[r] == c
    ensures forall j :: r < j < |s| ==> s[j] != c
  {
    LastIndexBefore(s, c, |s|)
  }

  /** The last occurrence of `c` among the first `n` characters of `s`. */
  function LastIndexBefore(s: string, c: char, n: nat): (r: int)
    requires n <= |s|
    ensures -1 <= r < n
    ensures 0 <= r ==> s[r] == c
    ensures forall j :: r < j < n ==> s[j] != c
  {
    if n == 0 then -1
    else if s[n - 1] == c then n - 1
    else LastIndexBefore(s, c, n - 1)
  }

  /** Any position holding `c` with no `c` after it is the one LastIndexOf finds. */
  lemma LastIndexOfUnique(s: string, c: char, d: int)
    requires 0 <= d < |s| && s[d] == c
    requires forall j :: d < j < |s| ==> s[j] != c
    ensures LastIndexOf(s, c) == d
  {
    assert s[d] == c;
  }

  /** The text after the last `c`; all of `s` when `c` does not occur.
      This is JavaScript's `s.split(c).pop()` and, when `c` occurs,
      Python's `s.rsplit(c, 1)[1]`. */
  function AfterLast(s: string, c: char): (r: string)
    ensures c !in r
    ensures c !in s ==> r == s
  {
    s[LastIndexOf(s, c) + 1..]
  }

  function LowerChar(ch: char): char
  {
    if 'A' <= ch <= 'Z' then (ch as int + 32) as char else ch
  }

  /** Lower-casing of ASCII letters; every other character is kept. */
  function Lower(s: string): (r: string)
    ensures |r| == |s|
  {
    seq(|s|, i requires 0 <= i < |s| => LowerChar(s[i]))
  }

  /** Lower-casing twice is lower-casing once. */
  lemma LowerTwice(s: string)
    ensures Lower(Lower(s)) == Lower(s)
  {
    assert forall i :: 0 <= i < |s| ==> LowerChar(LowerChar(s[i])) == LowerChar(s[i]);
  }

  /** Lower-casing moves no character other than a letter, so the last
      occurrence of such a character stays where it was. */
  lemma LowerKeepsLastIndex(s: string, c: char)
    requires !('A' <= c <= 'Z' || 'a' <= c <= 'z')
    ensures LastIndexOf(Lower(s), c) == LastIndexOf(s, c)
  {
    var low := Lower(s);
    assert forall i :: 0 <= i < |s| ==> (low[i] == c <==> s[i] == c);
    var d := LastIndexOf(s, c);
    if d >= 0 {
      LastIndexOfUnique(low, c, d);
    } else {
      assert forall i :: 0 <= i < |low| ==> low[i] != c;
    }
  }

  /** ... and the text after it is the lower-cased text after it. */
  lemma LowerAfterLast(s: string, c: char)
    requires !('A' <= c <= 'Z' || 'a' <= c <= 'z')
    ensures AfterLast(Lower(s), c) == Lower(AfterLast(s, c))
  {
    LowerKeepsLastIndex(s, c);
    LowerSuffix(s, LastIndexOf(s, c) + 1);
  }

  lemma LowerSuffix(s: string, k: nat)
    requires k <= |s|
    ensures Lower(s)[k..] == Lower(s[k..])
  {
    var a, b := Lower(s)[k..], Lower(s[k..]);
    assert |a| == |b|;
    forall i | 0 <= i < |a|
      ensures a[i] == b[i]
    {
      assert a[i] == LowerChar(s[k + i]);
    }
  }

  /** JavaScript's `s.substring(0, end)`: a negative `end` counts as 0 and
      one past the end as `|s|`. */
  function JsPrefix(s: string, end: int): (r: string)
    ensures r <= s
    ensures |r| == if end < 0 then 0 else if end > |s| then |s| else end
  {
    if end <= 0 then [] else if end >= |s| then s else s[..end]
  }

  /** `f` applied to each element of `s`, in order. */
  function Map<A, B>(f: A -> B, s: seq<A>): seq<B>
  {
    seq(|s|, i requires 0 <= i < |s| => f(s[i]))
  }

  lemma MapSnoc<A, B>(f: A -> B, s: seq<A>, x: A)
    ensures Map(f, s + [x]) == Map(f, s) + [f(x)]
  {
    var a, b := Map(f, s + [x]), Map(f, s) + [f(x)];
    assert |a| == |b|;
    forall k | 0 <= k < |a| ensures a[k] == b[k] {
      if k < |s| {
        assert (s + [x])[k] == s[k];
      }
    }
  }

  /** The elements of `s` that satisfy `p`, in their order in `s`. */
  function Filter<T>(p: T -> bool, s: seq<T>): (r: seq<T>)
    ensures |r| <= |s|
    ensures forall x :: x in r ==> x in s && p(x)
  {
    if s == [] then []
    else Filter(p, s[..|s| - 1]) + (if p(s[|s| - 1]) then [s[|s| - 1]] else [])
  }

  /** `r` can be obtained from `s` by deleting elements. */
  ghost predicate IsSubsequence<T>(r: seq<T>, s: seq<T>)
  {
    if r == [] then true
    else if s == [] then false
    else (r[|r| - 1] == s[|s| - 1] && IsSubsequence(r[..|r| - 1], s[..|s| - 1]))
         || IsSubsequence(r, s[..|s| - 1])
  }

  /** Filter keeps exactly the elements satisfying `p`, each as often as it
      occurs in `s`, and in their original order. */
  lemma {:induction false} FilterExact<T>(p: T -> bool, s: seq<T>)
    ensures IsSubsequence(Filter(p, s), s)
    ensures forall x :: multiset(Filter(p, s))[x] == if p(x) then multiset(s)[x] else 0
  {
    if s != [] {
      var init, last := s[..|s| - 1], s[|s| - 1];
      FilterExact(p, init);
      assert s == init + [last];
      var r := Filter(p, s);
      if p(last) {
        assert r[..|r| - 1] == Filter(p, init);
        assert r[|r| - 1] == last;
      } else {
        assert r == Filter(p, init);
        if r != [] {
          assert IsSubsequence(r, init);
        }
      }
    }
  }

  /** Filter returns its input unchanged exactly when every element passes. */
  lemma {:induction false} FilterKeepsAll<T>(p: T -> bool, s: seq<T>)
    ensures Filter(p, s) == s <==> forall x :: x in s ==> p(x)
  {
    if s != [] {
      var init, last := s[..|s| - 1], s[|s| - 1];
      FilterKeepsAll(p, init);
      assert s == init + [last];
      if !p(last) {
        assert |Filter(p, s)| < |s|;
      } else if forall x :: x in s ==> p(x) {
        assert forall x :: x in init ==> x in s;
      }
    }
  }

  /** Filter returns nothing exactly when no element passes. */
  lemma {:induction false} FilterKeepsNone<T>(p: T -> bool, s: seq<T>)
    ensures Filter(p, s) == [] <==> forall x :: x in s ==> !p(x)
  {
    if s != [] {
      var init, last := s[..|s| - 1], s[|s| - 1];
      FilterKeepsNone(p, init);
      assert s == init + [last];
      if p(last) {
        assert last in Filter(p, s);
      }
    }
  }

  /** Filtering one more element at the end extends the result at the end:
      the step a loop that appends accepted elements relies on. */
  lemma FilterSnoc<T>(p: T -> bool, s: seq<T>, x: T)
    ensures Filter(p, s + [x]) == Filter(p, s) + (if p(x) then [x] else [])
  {
    assert (s + [x])[..|s|] == s;
  }

  /** Filtering a prefix gives a prefix of the filtered whole. */
  lemma {:induction false} FilterOfPrefix<T>(p: T -> bool, s: seq<T>, i: nat)
    requires i <= |s|
    ensures Filter(p, s[..i]) <= Filter(p, s)
    decreases |s|
  {
    if i < |s| {
      var init := s[..|s| - 1];
      FilterOfPrefix(p, init, i);
      assert init[..i] == s[..i];
    } else {
      assert s[..i] == s;
    }
  }

  /** An element that passes lands in the filtered sequence right after
      what the filter kept from the elements before it. */
  lemma FilterAt<T>(p: T -> bool, s: seq<T>, i: nat)
    requires i < |s| && p(s[i])
    ensures var k := |Filter(p, s[..i])|;
      && k < |Filter(p, s)| && Filter(p, s)[k] == s[i]
      && Filter(p, s)[..k] == Filter(p, s[..i])
  {
    var before := Filter(p, s[..i]);
    var upTo := Filter(p, s[..i + 1]);
    assert upTo == before + [s[i]] by {
      assert s[..i + 1] == s[..i] + [s[i]];
      FilterSnoc(p, s[..i], s[i]);
    }
    FilterOfPrefix(p, s, i + 1);
  }
}
