/**
 * Image manifests as the mirror sees them: a raw manifest string kept together
 * with its parsed config descriptor and layer descriptors.
 */
module Manifests {
  import opened Wrappers

  type Digest = string

  /**
   * A blob descriptor (an entry `config` or `layers[k]` of a manifest).
   * `urls` is None when the descriptor has no "urls" key (or it is null).
   */
  datatype Descriptor = Descriptor(digest: Digest, urls: Option<seq<string>>)

  /** A foreign blob: one whose descriptor carries a non-empty `urls` list. */
  predicate IsForeign(d: Descriptor)
  {
    d.urls.Some? && d.urls.value != []
  }

  /** The raw manifest string and the structure parsed from it. */
  datatype Manifest = Manifest(raw: string, config: Descriptor, layers: seq<Descriptor>)

  /** All blob descriptors of a manifest: the config first, then the layers in order. */
  function Descriptors(m: Manifest): (r: seq<Descriptor>)
    ensures |r| == |m.layers| + 1 && r[0] == m.config && r[1..] == m.layers
  {
    [m.config] + m.layers
  }

  /** `a` can be obtained from `b` by deleting elements, keeping the order of the rest. */
  predicate IsSubsequence<T(==)>(a: seq<T>, b: seq<T>)
    decreases |b|
  {
    if a == [] then true
    else if b == [] then false
    else (a[0] == b[0] && IsSubsequence(a[1..], b[1..])) || IsSubsequence(a, b[1..])
  }

  lemma {:induction false} SubsequenceReflexive<T>(a: seq<T>)
    ensures IsSubsequence(a, a)
    decreases |a|
  {
    if a != [] {
      SubsequenceReflexive(a[1..]);
    }
  }

  lemma {:induction false} SubsequenceTransitive<T>(a: seq<T>, b: seq<T>, c: seq<T>)
    requires IsSubsequence(a, b) && IsSubsequence(b, c)
    ensures IsSubsequence(a, c)
    decreases |c|
  {
    if a == [] {
    } else if c == [] {
    } else if b[0] == c[0] && IsSubsequence(b[1..], c[1..]) {
      if a[0] == b[0] && IsSubsequence(a[1..], b[1..]) {
        SubsequenceTransitive(a[1..], b[1..], c[1..]);
      } else {
        SubsequenceTransitive(a, b[1..], c[1..]);
      }
    } else {
      SubsequenceTransitive(a, b, c[1..]);
    }
  }

  lemma {:induction false} SubsequenceCounts<T>(a: seq<T>, b: seq<T>)
    requires IsSubsequence(a, b)
    ensures multiset(a) <= multiset(b)
    decreases |b|
  {
    if a != [] {
      assert b == [b[0]] + b[1..];
      if a[0] == b[0] && IsSubsequence(a[1..], b[1..]) {
        SubsequenceCounts(a[1..], b[1..]);
        assert a == [a[0]] + a[1..];
      } else {
        SubsequenceCounts(a, b[1..]);
      }
    }
  }

  /** A subsequence without s[0] among its values is a subsequence of s[1..]. */
  lemma SkipsHead<T>(a: seq<T>, s: seq<T>)
    requires s != [] && IsSubsequence(a, s) && multiset(a)[s[0]] == 0
    ensures IsSubsequence(a, s[1..])
  {
    if a != [] {
      assert a == [a[0]] + a[1..];
    }
  }

  /** A subsequence with every copy of s[0] starts by taking s[0]. */
  lemma TakesHead<T>(a: seq<T>, s: seq<T>)
    requires s != [] && IsSubsequence(a, s) && multiset(a)[s[0]] == multiset(s)[s[0]]
    ensures a != [] && a[0] == s[0] && IsSubsequence(a[1..], s[1..])
  {
    assert s == [s[0]] + s[1..];
    if a == [] || !(a[0] == s[0] && IsSubsequence(a[1..], s[1..])) {
      SubsequenceCounts(a, s[1..]);
      assert false;
    }
  }

  /** Dropping a head that `a` does not keep leaves `a` keeping whole values of the tail. */
  lemma WholeValueTail<T>(a: seq<T>, s: seq<T>)
    requires s != [] && multiset(a)[s[0]] == 0
    requires forall d :: multiset(a)[d] == 0 || multiset(a)[d] == multiset(s)[d]
    ensures forall d :: multiset(a)[d] == 0 || multiset(a)[d] == multiset(s[1..])[d]
  {
    assert s == [s[0]] + s[1..];
    forall d ensures multiset(a)[d] == 0 || multiset(a)[d] == multiset(s[1..])[d] {
      if d != s[0] {
        assert multiset(s)[d] == multiset([s[0]])[d] + multiset(s[1..])[d];
      }
    }
  }

  /** Dropping a head that `a` and `b` both start with keeps their counts equal and whole. */
  lemma WholeValueTails<T>(a: seq<T>, b: seq<T>, s: seq<T>)
    requires s != [] && a != [] && b != [] && a[0] == s[0] && b[0] == s[0]
    requires forall d :: multiset(a)[d] == multiset(b)[d]
    requires forall d :: multiset(a)[d] == 0 || multiset(a)[d] == multiset(s)[d]
    ensures forall d :: multiset(a[1..])[d] == multiset(b[1..])[d]
    ensures forall d :: multiset(a[1..])[d] == 0 || multiset(a[1..])[d] == multiset(s[1..])[d]
  {
    var x := s[0];
    assert a == [x] + a[1..] && b == [x] + b[1..] && s == [x] + s[1..];
    forall d ensures multiset(a[1..])[d] == multiset(b[1..])[d]
             && (multiset(a[1..])[d] == 0 || multiset(a[1..])[d] == multiset(s[1..])[d]) {
      assert multiset(a)[d] == multiset([x])[d] + multiset(a[1..])[d];
      assert multiset(b)[d] == multiset([x])[d] + multiset(b[1..])[d];
      assert multiset(s)[d] == multiset([x])[d] + multiset(s[1..])[d];
    }
  }

  /**
   * A subsequence of s that keeps, of each value, either all of its
   * occurrences or none, is fixed by which values it keeps.
   */
  lemma {:induction false} WholeValueSubsequenceUnique<T>(a: seq<T>, b: seq<T>, s: seq<T>)
    requires IsSubsequence(a, s) && IsSubsequence(b, s)
    requires forall d :: multiset(a)[d] == multiset(b)[d]
    requires forall d :: multiset(a)[d] == 0 || multiset(a)[d] == multiset(s)[d]
    ensures a == b
    decreases |s|
  {
    if s != [] {
      if multiset(a)[s[0]] == 0 {
        SkipsHead(a, s);
        SkipsHead(b, s);
        WholeValueTail(a, s);
        WholeValueSubsequenceUnique(a, b, s[1..]);
      } else {
        TakesHead(a, s);
        TakesHead(b, s);
        WholeValueTails(a, b, s);
        WholeValueSubsequenceUnique(a[1..], b[1..], s[1..]);
        assert a == [a[0]] + a[1..] && b == [b[0]] + b[1..];
      }
    }
  }

}
