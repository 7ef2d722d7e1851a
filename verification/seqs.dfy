/** Sequence operations that mirror the JavaScript array methods the
    application relies on: `filter`, `map` and `splice(index, 1)`. */
module Seqs {

  /** `r` can be obtained from `s` by deleting elements, keeping the order
      of the rest. */
  ghost predicate IsSubsequence<T>(r: seq<T>, s: seq<T>)
    decreases |s|
  {
    |r| == 0 ||
    (|s| > 0 &&
     ((r[0] == s[0] && IsSubsequence(r[1..], s[1..])) || IsSubsequence(r, s[1..])))
  }

  /** `Array.prototype.filter`: the elements of `s` that satisfy `keep`, in
      their original order (see FilterCounts for their multiplicity). */
  function Filter<T(!new)>(s: seq<T>, keep: T -> bool): (r: seq<T>)
    ensures forall x :: x in r <==> x in s && keep(x)
    ensures forall i :: 0 <= i < |r| ==> keep(r[i])
    ensures |r| <= |s|
  {
    if |s| == 0 then []
    else
      var rest := Filter(s[1..], keep);
      if keep(s[0]) then
        var r := [s[0]] + rest;
        assert r[1..] == rest;
        r
      else rest
  }

  /** Filtering keeps the order of what it keeps. */
  lemma {:induction false} FilterIsSubsequence<T(!new)>(s: seq<T>, keep: T -> bool)
    ensures IsSubsequence(Filter(s, keep), s)
    decreases |s|
  {
    if |s| > 0 {
      FilterIsSubsequence(s[1..], keep);
      var rest := Filter(s[1..], keep);
      if keep(s[0]) {
        assert Filter(s, keep)[1..] == rest;
      }
    }
  }

  /** Filtering keeps every kept element as often as it occurs and drops
      every other element entirely. */
  lemma {:induction false} FilterCounts<T(!new)>(s: seq<T>, keep: T -> bool)
    ensures forall x :: multiset(Filter(s, keep))[x] == if keep(x) then multiset(s)[x] else 0
    decreases |s|
  {
    if |s| > 0 {
      FilterCounts(s[1..], keep);
      assert s == [s[0]] + s[1..];
      assert multiset(s) == multiset{s[0]} + multiset(s[1..]);
    }
  }

  /** Filtering distributes over concatenation. */
  lemma {:induction false} FilterAppend<T(!new)>(a: seq<T>, b: seq<T>, keep: T -> bool)
    ensures Filter(a + b, keep) == Filter(a, keep) + Filter(b, keep)
    decreases |a|
  {
    if |a| == 0 {
      assert a + b == b;
    } else {
      assert (a + b)[1..] == a[1..] + b;
      FilterAppend(a[1..], b, keep);
    }
  }

  /** A filter that rejects everything gives the empty list. */
  lemma {:induction false} FilterKeepsNone<T(!new)>(s: seq<T>, keep: T -> bool)
    requires forall x :: x in s ==> !keep(x)
    ensures Filter(s, keep) == []
    decreases |s|
  {
    if |s| > 0 {
      FilterKeepsNone(s[1..], keep);
    }
  }

  /** A filter that rejects nothing is the identity. */
  lemma {:induction false} FilterKeepsAll<T(!new)>(s: seq<T>, keep: T -> bool)
    requires forall i :: 0 <= i < |s| ==> keep(s[i])
    ensures Filter(s, keep) == s
    decreases |s|
  {
    if |s| > 0 {
      FilterKeepsAll(s[1..], keep);
    }
  }

  /** `Array.prototype.map` for a total function. */
  function Map<A, B>(s: seq<A>, f: A -> B): (r: seq<B>)
    ensures |r| == |s|
    ensures forall i :: 0 <= i < |s| ==> r[i] == f(s[i])
  {
    seq(|s|, i requires 0 <= i < |s| => f(s[i]))
  }

  lemma MapAppend<A, B>(a: seq<A>, b: seq<A>, f: A -> B)
    ensures Map(a + b, f) == Map(a, f) + Map(b, f)
  {
  }

  lemma MapInsert<A, B>(a: seq<A>, x: A, b: seq<A>, f: A -> B)
    ensures Map(a + [x] + b, f) == Map(a, f) + [f(x)] + Map(b, f)
  {
    MapAppend(a + [x], b, f);
    MapAppend(a, [x], f);
  }

  /** The position `Array.prototype.splice(index, ...)` starts at on an array
      of length `len`: a negative index counts from the end, and both ends
      are clamped to the array. */
  function SpliceStart(len: nat, index: int): (k: nat)
    ensures k <= len
    ensures 0 <= index <= len ==> k == index
    ensures index < 0 && len + index >= 0 ==> k == len + index
  {
    if index < 0 then (if len + index < 0 then 0 else len + index)
    else if index > len then len
    else index
  }

  /** `array.splice(index, 1)`: removes the one element at the (normalised)
      start position, or nothing when that position is past the end. */
  function SpliceOne<T>(s: seq<T>, index: int): (r: seq<T>)
    ensures 0 <= index < |s| ==> r == s[..index] + s[index + 1..]
    ensures index < 0 && |s| + index >= 0 ==> r == s[..|s| + index] + s[|s| + index + 1..]
    ensures index >= |s| ==> r == s
    ensures |s| + index < 0 && |s| > 0 ==> r == s[1..]
    ensures |r| == if SpliceStart(|s|, index) < |s| then |s| - 1 else |s|
  {
    var k := SpliceStart(|s|, index);
    if k < |s| then s[..k] + s[k + 1..] else s
  }

  /** Splicing out the last element undoes a push. */
  lemma SpliceOneLast<T>(s: seq<T>, x: T)
    ensures SpliceOne(s + [x], |s|) == s
  {
    assert (s + [x])[..|s|] == s;
  }

  /** Concatenation of a list of lists, in order. */
  function Flatten<T>(gs: seq<seq<T>>): (r: seq<T>)
    ensures |gs| > 0 ==> gs[0] <= r
  {
    if |gs| == 0 then [] else gs[0] + Flatten(gs[1..])
  }
}
