/** Order-preserving filtering of a sequence by a predicate: the part a
    predicate keeps, the part it drops, and the interleaving relation that
    ties both parts back to the sequence they came from. */
module Filtering {

  /** The elements of `s` that satisfy `p`, in their order in `s`. */
  function Kept<T>(s: seq<T>, p: T -> bool): (r: seq<T>)
    ensures |r| <= |s|
    ensures forall i :: 0 <= i < |r| ==> p(r[i])
    decreases |s|
  {
    if s == [] then []
    else Kept(s[..|s| - 1], p) + (if p(s[|s| - 1]) then [s[|s| - 1]] else [])
  }

  /** The elements of `s` that do not satisfy `p`, in their order in `s`. */
  function Dropped<T>(s: seq<T>, p: T -> bool): (r: seq<T>)
    ensures |r| <= |s|
    ensures forall i :: 0 <= i < |r| ==> !p(r[i])
    decreases |s|
  {
    if s == [] then []
    else Dropped(s[..|s| - 1], p) + (if p(s[|s| - 1]) then [] else [s[|s| - 1]])
  }

  /** Extending a prefix of `s` by one element extends Kept or Dropped of
      it by that element. */
  lemma KeptStep<T>(s: seq<T>, i: nat, p: T -> bool)
    requires i < |s|
    ensures Kept(s[..i + 1], p) == Kept(s[..i], p) + (if p(s[i]) then [s[i]] else [])
    ensures Dropped(s[..i + 1], p) == Dropped(s[..i], p) + (if p(s[i]) then [] else [s[i]])
  {
    assert s[..i + 1][..i] == s[..i];
  }

  /** `s` is a merge of `a` and `b`: every element of `s` comes from exactly
      one of them, and both keep their relative order from `s`. */
  ghost predicate Interleaves<T>(s: seq<T>, a: seq<T>, b: seq<T>)
    decreases |s|
  {
    if s == [] then a == [] && b == []
    else
      (a != [] && a[|a| - 1] == s[|s| - 1] && Interleaves(s[..|s| - 1], a[..|a| - 1], b)) ||
      (b != [] && b[|b| - 1] == s[|s| - 1] && Interleaves(s[..|s| - 1], a, b[..|b| - 1]))
  }

  /** Kept and Dropped split `s` into two order-preserving parts that
      together hold every element of `s` once and share no element. */
  lemma Partition<T>(s: seq<T>, p: T -> bool)
    ensures Interleaves(s, Kept(s, p), Dropped(s, p))
    ensures multiset(Kept(s, p)) + multiset(Dropped(s, p)) == multiset(s)
    ensures |Kept(s, p)| + |Dropped(s, p)| == |s|
    ensures forall x :: x in Kept(s, p) ==> x !in Dropped(s, p)
  {
    PartitionInterleaves(s, p);
    PartitionCounts(s, p);
    assert |multiset(Kept(s, p)) + multiset(Dropped(s, p))| == |multiset(s)|;
    forall x | x in Kept(s, p)
      ensures x !in Dropped(s, p)
    {
      var i :| 0 <= i < |Kept(s, p)| && Kept(s, p)[i] == x;
      assert p(x);
    }
  }

  lemma {:induction false} PartitionInterleaves<T>(s: seq<T>, p: T -> bool)
    ensures Interleaves(s, Kept(s, p), Dropped(s, p))
    decreases |s|
  {
    if s != [] {
      var init, last := s[..|s| - 1], s[|s| - 1];
      PartitionInterleaves(init, p);
      var k, d := Kept(s, p), Dropped(s, p);
      if p(last) {
        assert k == Kept(init, p) + [last] && d == Dropped(init, p);
        assert k[..|k| - 1] == Kept(init, p);
      } else {
        assert d == Dropped(init, p) + [last] && k == Kept(init, p);
        assert d[..|d| - 1] == Dropped(init, p);
      }
    }
  }

  lemma {:induction false} PartitionCounts<T>(s: seq<T>, p: T -> bool)
    ensures multiset(Kept(s, p)) + multiset(Dropped(s, p)) == multiset(s)
    decreases |s|
  {
    if s != [] {
      var init, last := s[..|s| - 1], s[|s| - 1];
      PartitionCounts(init, p);
      assert s == init + [last];
      assert multiset(s) == multiset(init) + multiset{last};
      if p(last) {
        assert multiset(Kept(s, p)) == multiset(Kept(init, p)) + multiset{last};
      } else {
        assert multiset(Dropped(s, p)) == multiset(Dropped(init, p)) + multiset{last};
      }
    }
  }

  /** The converse of Partition: the only way to merge `s` out of a part
      whose elements all satisfy `p` and a part whose elements all fail it
      is the pair Kept, Dropped. */
  lemma {:induction false} InterleavingIsPartition<T>(s: seq<T>, a: seq<T>, b: seq<T>, p: T -> bool)
    requires Interleaves(s, a, b)
    requires forall i :: 0 <= i < |a| ==> p(a[i])
    requires forall i :: 0 <= i < |b| ==> !p(b[i])
    ensures a == Kept(s, p) && b == Dropped(s, p)
    decreases |s|
  {
    if s != [] {
      var init, last := s[..|s| - 1], s[|s| - 1];
      if p(last) {
        assert !(b != [] && b[|b| - 1] == last);
        var a' := a[..|a| - 1];
        InterleavingIsPartition(init, a', b, p);
        assert a == a' + [last];
      } else {
        assert !(a != [] && a[|a| - 1] == last);
        var b' := b[..|b| - 1];
        InterleavingIsPartition(init, a, b', p);
        assert b == b' + [last];
      }
    }
  }
}
