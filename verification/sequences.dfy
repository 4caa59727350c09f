/** Sequence helpers: mapping a function over a sequence, and suffixes. */
module Sequences {
  /** `f` applied to each element, in order. */
  function Map<A, B>(f: A -> B, s: seq<A>): (r: seq<B>)
    ensures |r| == |s|
    ensures forall i :: 0 <= i < |s| ==> r[i] == f(s[i])
  {
    seq(|s|, i requires 0 <= i < |s| => f(s[i]))
  }

  /** Mapping distributes over concatenation. */
  lemma MapAppend<A, B>(f: A -> B, a: seq<A>, b: seq<A>)
    ensures Map(f, a + b) == Map(f, a) + Map(f, b)
  {
    var l := Map(f, a + b);
    var r := Map(f, a) + Map(f, b);
    forall i | 0 <= i < |a + b| ensures l[i] == r[i] {
      if i < |a| {
        assert (a + b)[i] == a[i];
      } else {
        assert (a + b)[i] == b[i - |a|];
      }
    }
  }

  /** Mapping an element followed by two sequences. */
  lemma MapCons<A, B>(f: A -> B, x: A, l: seq<A>, r: seq<A>)
    ensures Map(f, [x] + l + r) == [f(x)] + Map(f, l) + Map(f, r)
  {
    MapAppend(f, [x] + l, r);
    MapAppend(f, [x], l);
  }

  /** `r` is a suffix of `s`. */
  predicate IsSuffix<A(==)>(r: seq<A>, s: seq<A>) {
    |r| <= |s| && r == s[|s| - |r|..]
  }

  /** A suffix of a suffix is a suffix. */
  lemma SuffixTrans<A>(r: seq<A>, m: seq<A>, s: seq<A>)
    requires IsSuffix(r, m) && IsSuffix(m, s)
    ensures IsSuffix(r, s)
  {
    assert m[|m| - |r|..] == s[|s| - |r|..];
  }
}
