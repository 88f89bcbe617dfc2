/**
 * The per-tag difference between a source manifest and whatever the
 * destination holds for the same tag (main.py lines 49-68): which blobs have
 * to be copied before the source manifest can be published.
 */
module Diff {
  import opened Manifests

  /**
   * The outcome of reading the destination manifest of a tag. Every HTTP
   * error, not only "not found", is read as an absent manifest.
   */
  datatype Fetched = Found(manifest: Manifest) | HttpError

  /** Some descriptor of `ds` has digest `digest` (the `any(...)` of line 60). */
  predicate HasDigest(ds: seq<Descriptor>, digest: Digest)
  {
    exists k :: 0 <= k < |ds| && ds[k].digest == digest
  }

  /**
   * The source descriptors whose digest no destination descriptor has, in
   * source order and with their multiplicity (lines 59-61).
   */
  function MissingFrom(source: seq<Descriptor>, destination: seq<Descriptor>): (r: seq<Descriptor>)
    ensures IsSubsequence(r, source)
    ensures forall d :: multiset(r)[d] == if HasDigest(destination, d.digest) then 0 else multiset(source)[d]
  {
    if source == [] then []
    else
      var rest := MissingFrom(source[1..], destination);
      assert source == [source[0]] + source[1..];
      if HasDigest(destination, source[0].digest) then rest else [source[0]] + rest
  }

  /** The descriptors that are not foreign, in order and with their multiplicity (line 68). */
  function DropForeign(ds: seq<Descriptor>): (r: seq<Descriptor>)
    ensures IsSubsequence(r, ds)
    ensures forall d :: multiset(r)[d] == if IsForeign(d) then 0 else multiset(ds)[d]
  {
    if ds == [] then []
    else
      var rest := DropForeign(ds[1..]);
      assert ds == [ds[0]] + ds[1..];
      if IsForeign(ds[0]) then rest else [ds[0]] + rest
  }

  /**
   * A source descriptor is copied when it is not foreign and, if the
   * destination manifest could be read, none of its descriptors has that digest.
   */
  predicate Transferable(d: Descriptor, destination: Fetched)
  {
    !IsForeign(d) && (destination.HttpError? || !HasDigest(Descriptors(destination.manifest), d.digest))
  }

  /**
   * The blobs one tag's sync pushes, in push order (lines 49-68): exactly the
   * transferable source descriptors, config first, then the layers.
   */
  function ToTransfer(source: Manifest, destination: Fetched): (r: seq<Descriptor>)
    ensures IsSubsequence(r, Descriptors(source))
    ensures forall d :: multiset(r)[d] == if Transferable(d, destination) then multiset(Descriptors(source))[d] else 0
    ensures forall d :: d in r ==> !IsForeign(d)
  {
    var sourceLayers := Descriptors(source);
    var missing := if destination.HttpError? then sourceLayers
                   else MissingFrom(sourceLayers, Descriptors(destination.manifest));
    var r := DropForeign(missing);
    SubsequenceReflexive(sourceLayers);
    SubsequenceTransitive(r, missing, sourceLayers);
    r
  }

  /**
   * The contract of MissingFrom fixes its result: it is the only order-preserving
   * subsequence of the source with those multiplicities.
   */
  lemma MissingFromUnique(source: seq<Descriptor>, destination: seq<Descriptor>, r: seq<Descriptor>)
    requires IsSubsequence(r, source)
    requires forall d :: multiset(r)[d] == if HasDigest(destination, d.digest) then 0 else multiset(source)[d]
    ensures r == MissingFrom(source, destination)
  {
    WholeValueSubsequenceUnique(r, MissingFrom(source, destination), source);
  }

  /** The contract of DropForeign fixes its result. */
  lemma DropForeignUnique(ds: seq<Descriptor>, r: seq<Descriptor>)
    requires IsSubsequence(r, ds)
    requires forall d :: multiset(r)[d] == if IsForeign(d) then 0 else multiset(ds)[d]
    ensures r == DropForeign(ds)
  {
    WholeValueSubsequenceUnique(r, DropForeign(ds), ds);
  }

  /**
   * The contract of ToTransfer fixes its result: the pushed list is the only
   * order-preserving subsequence of config-then-layers that holds every copy
   * of each transferable descriptor and nothing else.
   */
  lemma ToTransferUnique(source: Manifest, destination: Fetched, r: seq<Descriptor>)
    requires IsSubsequence(r, Descriptors(source))
    requires forall d :: multiset(r)[d] == if Transferable(d, destination) then multiset(Descriptors(source))[d] else 0
    ensures r == ToTransfer(source, destination)
  {
    WholeValueSubsequenceUnique(r, ToTransfer(source, destination), Descriptors(source));
  }

  /**
   * Nothing is pushed exactly when neither the config nor any layer is
   * transferable.
   */
  lemma NothingToTransferIff(source: Manifest, destination: Fetched)
    ensures ToTransfer(source, destination) == [] <==>
      !Transferable(source.config, destination) &&
      forall k :: 0 <= k < |source.layers| ==> !Transferable(source.layers[k], destination)
  {
    var r := ToTransfer(source, destination);
    var all := Descriptors(source);
    if r == [] {
      assert multiset(r)[source.config] == 0;
      assert source.config in all;
      forall k | 0 <= k < |source.layers| ensures !Transferable(source.layers[k], destination) {
        assert all[k + 1] == source.layers[k];
        assert multiset(r)[source.layers[k]] == 0;
      }
    } else {
      var d := r[0];
      assert multiset(r)[d] > 0;
      assert d in all;
      var k :| 0 <= k < |all| && all[k] == d;
      if k > 0 {
        assert source.layers[k - 1] == d;
      }
    }
  }

  /**
   * When the destination already holds the source manifest itself, nothing is
   * transferred: every source digest is present.
   */
  lemma SelfTransferEmpty(m: Manifest)
    ensures ToTransfer(m, Found(m)) == []
  {
    var all := Descriptors(m);
    assert HasDigest(all, m.config.digest) by { assert all[0] == m.config; }
    forall k | 0 <= k < |m.layers| ensures HasDigest(all, m.layers[k].digest) {
      assert all[k + 1] == m.layers[k];
    }
    NothingToTransferIff(m, Found(m));
  }

  /**
   * When the destination read fails, every non-foreign source descriptor is
   * pushed, even those whose blob the destination may already have.
   */
  lemma UnreadableTransfersAllLocal(m: Manifest)
    ensures ToTransfer(m, HttpError) == DropForeign(Descriptors(m))
  {
  }
}
