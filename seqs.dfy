/** Sequence helpers shared by the query loops: keeping the entries that pass a test,
    and cutting a result list at a limit. */
module Seqs {

  /** The elements of `s` that pass `keep`, in their original order. */
  function Filter<T>(s: seq<T>, keep: T -> bool): (r: seq<T>)
    decreases |s|
  {
    if s == [] then []
    else Filter(s[..|s| - 1], keep) + (if keep(s[|s| - 1]) then [s[|s| - 1]] else [])
  }

  /** What is kept is exactly what occurs in `s` and passes the test. */
  lemma {:induction false} FilterMembers<T>(s: seq<T>, keep: T -> bool, x: T)
    ensures x in Filter(s, keep) <==> x in s && keep(x)
    decreases |s|
  {
    if s != [] {
      var n := |s| - 1;
      assert s == s[..n] + [s[n]];
      FilterMembers(s[..n], keep, x);
    }
  }

  lemma FilterSnoc<T>(s: seq<T>, x: T, keep: T -> bool)
    ensures Filter(s + [x], keep) == Filter(s, keep) + (if keep(x) then [x] else [])
  {
    assert (s + [x])[..|s|] == s;
  }

  /** Filtering a concatenation filters each part, keeping the parts in order. */
  lemma {:induction false} FilterAppend<T>(s: seq<T>, t: seq<T>, keep: T -> bool)
    ensures Filter(s + t, keep) == Filter(s, keep) + Filter(t, keep)
    decreases |t|
  {
    if t == [] {
      assert s + t == s;
    } else {
      var n := |t| - 1;
      FilterAppend(s, t[..n], keep);
      assert (s + t)[..|s + t| - 1] == s + t[..n];
      assert (s + t)[|s + t| - 1] == t[n];
    }
  }

  /** The first `n` elements of `s`: all of `s` when it is shorter, none when `n <= 0`. */
  function Take<T>(s: seq<T>, n: int): (r: seq<T>)
    ensures |r| == if n <= 0 then 0 else if n < |s| then n else |s|
    ensures r == s[..|r|]
  {
    if n <= 0 then [] else if n < |s| then s[..n] else s
  }

  /** Once a prefix already fills the limit, extending the sequence changes nothing in what is taken. */
  lemma TakeStable<T>(a: seq<T>, b: seq<T>, n: int)
    requires |a| <= |b| && b[..|a|] == a
    requires |Take(a, n)| >= n
    ensures Take(b, n) == Take(a, n)
  {
  }

  /** One step of a loop that filters `s` from left to right, over an element that is kept. */
  lemma FilterKeep<T>(s: seq<T>, i: nat, keep: T -> bool)
    requires i < |s| && keep(s[i])
    ensures Filter(s[..i + 1], keep) == Filter(s[..i], keep) + [s[i]]
  {
    assert s[..i + 1] == s[..i] + [s[i]];
    FilterSnoc(s[..i], s[i], keep);
  }

  /** One step of a loop that filters `s` from left to right, over an element that is dropped. */
  lemma FilterSkip<T>(s: seq<T>, i: nat, keep: T -> bool)
    requires i < |s| && !keep(s[i])
    ensures Filter(s[..i + 1], keep) == Filter(s[..i], keep)
  {
    assert s[..i + 1] == s[..i] + [s[i]];
    FilterSnoc(s[..i], s[i], keep);
  }

  /** One step of a loop that collects the first `n` kept elements of `s`, over an element that is kept,
      while the limit is not reached. */
  lemma TakeFilterKeep<T>(s: seq<T>, i: nat, keep: T -> bool, n: int)
    requires i < |s| && keep(s[i])
    requires |Take(Filter(s[..i], keep), n)| < n
    ensures Take(Filter(s[..i + 1], keep), n) == Take(Filter(s[..i], keep), n) + [s[i]]
  {
    assert s[..i + 1] == s[..i] + [s[i]];
    FilterSnoc(s[..i], s[i], keep);
  }

  /** An element that is not kept changes nothing in what is taken. */
  lemma TakeFilterSkip<T>(s: seq<T>, i: nat, keep: T -> bool, n: int)
    requires i < |s| && !keep(s[i])
    ensures Take(Filter(s[..i + 1], keep), n) == Take(Filter(s[..i], keep), n)
  {
    assert s[..i + 1] == s[..i] + [s[i]];
    FilterSnoc(s[..i], s[i], keep);
  }

  /** Once the first `i` elements already yield `n` kept elements, the rest of `s` changes nothing. */
  lemma TakeFilterLimit<T>(s: seq<T>, i: nat, keep: T -> bool, n: int)
    requires i <= |s|
    requires |Take(Filter(s[..i], keep), n)| >= n
    ensures Take(Filter(s, keep), n) == Take(Filter(s[..i], keep), n)
  {
    FilterAppend(s[..i], s[i..], keep);
    assert s[..i] + s[i..] == s;
    TakeStable(Filter(s[..i], keep), Filter(s, keep), n);
  }

  /** The pieces `f(x)` of every element of `s`, concatenated in the order of `s`. */
  function FlatMap<T, U>(s: seq<T>, f: T -> seq<U>): seq<U>
    decreases |s|
  {
    if s == [] then [] else FlatMap(s[..|s| - 1], f) + f(s[|s| - 1])
  }

  lemma FlatMapSnoc<T, U>(s: seq<T>, x: T, f: T -> seq<U>)
    ensures FlatMap(s + [x], f) == FlatMap(s, f) + f(x)
  {
    assert (s + [x])[..|s|] == s;
  }

  /** Concatenating the input concatenates the outputs, in the same order. */
  lemma {:induction false} FlatMapAppend<T, U>(s: seq<T>, t: seq<T>, f: T -> seq<U>)
    ensures FlatMap(s + t, f) == FlatMap(s, f) + FlatMap(t, f)
    decreases |t|
  {
    if t == [] {
      assert s + t == s;
    } else {
      var n := |t| - 1;
      FlatMapAppend(s, t[..n], f);
      assert (s + t)[..|s + t| - 1] == s + t[..n];
      assert (s + t)[|s + t| - 1] == t[n];
    }
  }

  /** The output for a prefix of the input is a prefix of the output. */
  lemma FlatMapPrefix<T, U>(s: seq<T>, k: nat, f: T -> seq<U>)
    requires k <= |s|
    ensures |FlatMap(s[..k], f)| <= |FlatMap(s, f)| && FlatMap(s, f)[..|FlatMap(s[..k], f)|] == FlatMap(s[..k], f)
  {
    FlatMapAppend(s[..k], s[k..], f);
    assert s[..k] + s[k..] == s;
  }
}
