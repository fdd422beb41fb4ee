/** Pieces of sequences, told by their indices. */
module Sequences {
  /** The piece p stands in s at index i. */
  ghost predicate At<T>(s: seq<T>, i: nat, p: seq<T>) {
    i + |p| <= |s| && forall k {:trigger p[k]} :: 0 <= k < |p| ==> s[i + k] == p[k]
  }

  lemma AtIndex<T>(s: seq<T>, i: nat, p: seq<T>, k: nat)
    requires At(s, i, p) && k < |p|
    ensures s[i + k] == p[k]
  {
  }

  lemma AtSlice<T>(s: seq<T>, i: nat, j: nat)
    requires i <= j <= |s|
    ensures At(s, i, s[i..j])
  {
  }

  lemma AtIsSlice<T>(s: seq<T>, i: nat, p: seq<T>)
    requires At(s, i, p)
    ensures s[i..i + |p|] == p
  {
  }

  lemma AtPrefix<T>(a: seq<T>, b: seq<T>)
    ensures At(a + b, 0, a)
  {
  }

  lemma AtAppend<T>(s: seq<T>, i: nat, a: seq<T>, b: seq<T>)
    requires At(s, i, a) && At(s, i + |a|, b)
    ensures At(s, i, a + b)
  {
  }

  lemma AtSplit<T>(s: seq<T>, i: nat, a: seq<T>, b: seq<T>)
    requires At(s, i, a + b)
    ensures At(s, i, a) && At(s, i + |a|, b)
  {
    forall k | 0 <= k < |a| ensures s[i + k] == a[k] {
      assert (a + b)[k] == a[k];
    }
    forall k | 0 <= k < |b| ensures s[i + |a| + k] == b[k] {
      assert (a + b)[|a| + k] == b[k];
    }
  }

  lemma AtOne<T>(s: seq<T>, i: nat, x: T)
    requires At(s, i, [x])
    ensures i < |s| && s[i] == x
  {
    AtIndex(s, i, [x], 0);
  }

  lemma AtHead<T>(s: seq<T>, i: nat, x: T, rest: seq<T>)
    requires At(s, i, [x] + rest)
    ensures i < |s| && s[i] == x && At(s, i + 1, rest)
  {
    AtSplit(s, i, [x], rest);
    AtOne(s, i, x);
  }

  lemma Associative<T>(a: seq<T>, b: seq<T>, c: seq<T>)
    ensures a + (b + c) == (a + b) + c
  {
  }
}
