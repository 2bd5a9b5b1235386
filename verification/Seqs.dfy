/** Small vocabulary on sequences shared by the other modules. */
module Seqs {

  datatype Option<+T> = None | Some(value: T) {
    function GetOr(default: T): T {
      if Some? then value else default
    }
  }

  /** No value occurs at two positions. */
  ghost predicate NoDup<T>(s: seq<T>) {
    forall i, j :: 0 <= i < j < |s| ==> s[i] != s[j]
  }

  /** The first position of `x`, as `iter().position` finds it. */
  function IndexOf<T(==)>(s: seq<T>, x: T): (i: nat)
    requires x in s
    ensures i < |s| && s[i] == x && forall j :: 0 <= j < i ==> s[j] != x
  {
    if s[0] == x then 0 else 1 + IndexOf(s[1..], x)
  }

  lemma {:induction false} IndexIsFirst<T>(s: seq<T>, x: T, i: nat)
    requires i < |s| && s[i] == x && x !in s[..i]
    ensures x in s && IndexOf(s, x) == i
  {
    if i > 0 {
      assert s[..i][0] == s[0] && s[1..][..i - 1] == s[..i][1..];
      IndexIsFirst(s[1..], x, i - 1);
    }
  }

  /** `Vec::remove`. */
  function RemoveAt<T>(s: seq<T>, i: nat): seq<T>
    requires i < |s|
  {
    s[..i] + s[i + 1..]
  }

  /** `filter(|x| seen.insert(x))`: the first occurrence of each value. */
  function WithoutRepeats<T(==)>(s: seq<T>): seq<T> {
    if s == [] then [] else
      var init, last := s[..|s| - 1], s[|s| - 1];
      WithoutRepeats(init) + if last in init then [] else [last]
  }

  lemma {:induction false} WithoutRepeatsKeepsValues<T(!new)>(s: seq<T>)
    ensures NoDup(WithoutRepeats(s)) && forall x :: x in WithoutRepeats(s) <==> x in s
  {
    if s != [] {
      WithoutRepeatsKeepsValues(s[..|s| - 1]);
      assert s == s[..|s| - 1] + [s[|s| - 1]];
    }
  }

  lemma {:induction false} WithoutRepeatsOfNoDup<T>(s: seq<T>)
    requires NoDup(s)
    ensures WithoutRepeats(s) == s
  {
    if s != [] {
      var init, last := s[..|s| - 1], s[|s| - 1];
      LastIsNew(s);
      WithoutRepeatsOfNoDup(init);
      TakeDrop(s, |s| - 1);
    }
  }

  lemma LastIsNew<T>(s: seq<T>)
    requires NoDup(s) && s != []
    ensures NoDup(s[..|s| - 1]) && s[|s| - 1] !in s[..|s| - 1]
  {
    var init := s[..|s| - 1];
    forall i | 0 <= i < |init| ensures init[i] != s[|s| - 1] {
      assert s[i] != s[|s| - 1];
    }
  }

  lemma NoDupAppend<T>(s: seq<T>, x: T)
    requires NoDup(s) && x !in s
    ensures NoDup(s + [x])
  {
  }

  /** A duplicate-free list has as many entries as its set of values. */
  lemma {:induction false} NoDupCardinality<T>(s: seq<T>, values: set<T>)
    requires NoDup(s) && forall x :: x in s <==> x in values
    ensures |s| == |values|
  {
    if s == [] {
      assert values == {};
    } else {
      NoDupCardinality(s[1..], values - {s[0]});
    }
  }

  lemma SubsetCardinality<T>(a: set<T>, b: set<T>)
    requires a <= b
    ensures |a| <= |b|
  {
    assert b == a + (b - a);
  }

  function Max(a: int, b: int): int {
    if a < b then b else a
  }

  // Equalities that are cheap alone and dear inside a larger proof.

  lemma ConcatAssoc<T>(a: seq<T>, b: seq<T>, c: seq<T>)
    ensures a + b + c == a + (b + c)
  {
  }

  lemma MoveHead<T>(done: seq<T>, todo: seq<T>)
    requires todo != []
    ensures done + [todo[0]] + todo[1..] == done + todo
  {
  }

  lemma TakeDrop<T>(s: seq<T>, n: nat)
    requires n <= |s|
    ensures s == s[..n] + s[n..]
  {
  }

  lemma SlicesOfTail<T>(s: seq<T>, n: nat)
    requires 0 < n <= |s|
    ensures s[..n] == [s[0]] + s[1..][..n - 1] && s[n..] == s[1..][n - 1..]
  {
  }

  lemma PrefixSlices<T>(s: seq<T>, t: seq<T>, n: nat)
    requires s <= t && n < |s|
    ensures s[..n] == t[..n] && s[..n + 1] == t[..n + 1] && s[n] == t[n]
  {
  }

  lemma DropConcat<T>(a: seq<T>, b: seq<T>)
    ensures (a + b)[|a|..] == b && (a + b)[..|a|] == a
  {
  }

  lemma InitOfConcat<T>(a: seq<T>, b: seq<T>)
    requires b != []
    ensures (a + b)[..|a + b| - 1] == a + b[..|b| - 1] && (a + b)[|a + b| - 1] == b[|b| - 1]
  {
  }

  lemma LastApart<T>(s: seq<T>)
    requires s != []
    ensures s == s[..|s| - 1] + [s[|s| - 1]]
  {
  }

  lemma TailAt<T>(s: seq<T>, i: nat)
    requires i < |s|
    ensures s[i..] != [] && s[i..][0] == s[i] && s[i..][1..] == s[i + 1..]
  {
  }

  lemma TailOfConcat<T>(a: seq<T>, b: seq<T>)
    requires a != []
    ensures (a + b)[1..] == a[1..] + b
  {
  }
}
