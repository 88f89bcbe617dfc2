/**
 * Worked cases of the mirror on small manifests and registries: the
 * situations the script is written for, stated for any digests that fit them.
 */
module Scenarios {
  import opened Wrappers
  import opened Manifests
  import opened Diff
  import opened Registry

  const NoFaults := DestinationFaults({}, {}, {})

  lemma MissingLastLayer(cfg: Descriptor, a: Descriptor, b: Descriptor, c: Descriptor)
    requires c.digest !in {cfg.digest, a.digest, b.digest}
    ensures MissingFrom([cfg, a, b, c], [cfg, a, b]) == [c]
  {
    var src := [cfg, a, b, c];
    var dst := [cfg, a, b];
    assert !HasDigest(dst, c.digest);
    assert HasDigest(dst, cfg.digest) by { assert dst[0].digest == cfg.digest; }
    assert HasDigest(dst, a.digest) by { assert dst[1].digest == a.digest; }
    assert HasDigest(dst, b.digest) by { assert dst[2].digest == b.digest; }
    assert src[3..] == [c];
    assert MissingFrom(src[3..], dst) == [c];
    assert src[2..][1..] == src[3..];
    assert MissingFrom(src[2..], dst) == [c];
    assert src[1..][1..] == src[2..];
    assert MissingFrom(src[1..], dst) == [c];
  }

  /**
   * The destination has the tag with layers a and b; the source adds layer c
   * with a new digest. Only c is pushed.
   */
  lemma OnlyNewLayerPushed(raw: string, raw': string, cfg: Descriptor, a: Descriptor, b: Descriptor, c: Descriptor)
    requires !IsForeign(c)
    requires c.digest !in {cfg.digest, a.digest, b.digest}
    ensures ToTransfer(Manifest(raw, cfg, [a, b, c]), Found(Manifest(raw', cfg, [a, b]))) == [c]
  {
    MissingLastLayer(cfg, a, b, c);
    assert Descriptors(Manifest(raw, cfg, [a, b, c])) == [cfg, a, b, c];
    assert Descriptors(Manifest(raw', cfg, [a, b])) == [cfg, a, b];
    assert DropForeign([c][1..]) == [];
  }

  lemma ForeignOnlyMissing(cfg: Descriptor, a: Descriptor, w: Descriptor)
    requires IsForeign(w)
    ensures DropForeign(MissingFrom([cfg, a, w], [cfg, a])) == []
  {
    var src := [cfg, a, w];
    var dst := [cfg, a];
    assert HasDigest(dst, cfg.digest) by { assert dst[0].digest == cfg.digest; }
    assert HasDigest(dst, a.digest) by { assert dst[1].digest == a.digest; }
    assert src[1..][1..] == [w];
    assert src[1..][1..][1..] == [];
    if HasDigest(dst, w.digest) {
      assert MissingFrom(src, dst) == [];
    } else {
      assert MissingFrom(src[1..][1..], dst) == [w];
      assert MissingFrom(src[1..], dst) == [w];
      assert MissingFrom(src, dst) == [w];
      assert DropForeign([w][1..]) == [];
    }
  }

  /**
   * The source adds only a foreign layer w (one with download URLs); the
   * destination tag is left alone, not even republished.
   */
  lemma OnlyForeignMissingLeavesTag(s: Store, repo: RepoName, tag: Tag, raw: string, raw': string,
                                    cfg: Descriptor, a: Descriptor, w: Descriptor)
    requires IsForeign(w)
    requires Lookup(s.manifests, repo, tag) == Some(Manifest(raw', cfg, [a]))
    ensures TagSync(s, NoFaults, repo, tag, Manifest(raw, cfg, [a, w])) == s
  {
    var m := Manifest(raw, cfg, [a, w]);
    var d := Manifest(raw', cfg, [a]);
    ForeignOnlyMissing(cfg, a, w);
    assert Read(s, NoFaults, repo, tag) == Found(d);
    assert Descriptors(m) == [cfg, a, w];
    assert Descriptors(d) == [cfg, a];
    assert ToTransfer(m, Found(d)) == DropForeign(MissingFrom([cfg, a, w], [cfg, a]));
    assert ToTransfer(m, Read(s, NoFaults, repo, tag)) == [];
  }

  lemma LocalDescriptorsKept(cfg: Descriptor, a: Descriptor, b: Descriptor)
    requires !IsForeign(cfg) && !IsForeign(a) && !IsForeign(b)
    ensures DropForeign([cfg, a, b]) == [cfg, a, b]
  {
    var ds := [cfg, a, b];
    assert ds[1..][1..][1..] == [];
    assert DropForeign(ds[1..][1..]) == [b];
    assert DropForeign(ds[1..]) == [a, b];
  }

  lemma ThreePushes(cfg: Descriptor, a: Descriptor, b: Descriptor)
    ensures Pushes([cfg, a, b]) == [BlobPushed(cfg.digest), BlobPushed(a.digest), BlobPushed(b.digest)]
    ensures DigestSet([cfg, a, b]) == {cfg.digest, a.digest, b.digest}
  {
    var ds := [cfg, a, b];
    var ps := Pushes(ds);
    assert |ps| == 3 && ps[0] == BlobPushed(cfg.digest) && ps[1] == BlobPushed(a.digest) && ps[2] == BlobPushed(b.digest);
    assert forall x :: x in ds <==> x == cfg || x == a || x == b;
  }

  /**
   * A tag the destination does not have: its config and both layers are
   * pushed in that order, then the manifest is published under the tag.
   */
  lemma NewTagPushedThenPublished(s: Store, repo: RepoName, tag: Tag, raw: string, cfg: Descriptor, a: Descriptor, b: Descriptor)
    requires !IsForeign(cfg) && !IsForeign(a) && !IsForeign(b)
    requires Lookup(s.manifests, repo, tag) == None
    ensures TagSync(s, NoFaults, repo, tag, Manifest(raw, cfg, [a, b])).trace
            == s.trace + [BlobPushed(cfg.digest), BlobPushed(a.digest), BlobPushed(b.digest), ManifestSet(repo, tag, raw)]
    ensures TagSync(s, NoFaults, repo, tag, Manifest(raw, cfg, [a, b])).blobs == s.blobs + {cfg.digest, a.digest, b.digest}
    ensures Lookup(TagSync(s, NoFaults, repo, tag, Manifest(raw, cfg, [a, b])).manifests, repo, tag) == Some(Manifest(raw, cfg, [a, b]))
  {
    LocalDescriptorsKept(cfg, a, b);
    ThreePushes(cfg, a, b);
    assert Descriptors(Manifest(raw, cfg, [a, b])) == [cfg, a, b];
    assert ToTransfer(Manifest(raw, cfg, [a, b]), HttpError) == [cfg, a, b];
  }

  /**
   * The destination tag lists the same layers in the other order, under its
   * own raw string: nothing is missing, so the tag keeps the destination's
   * manifest and is not republished.
   */
  lemma ReorderedNotRepublished(s: Store, repo: RepoName, tag: Tag, raw: string, raw': string,
                                cfg: Descriptor, a: Descriptor, b: Descriptor)
    requires Lookup(s.manifests, repo, tag) == Some(Manifest(raw', cfg, [b, a]))
    ensures TagSync(s, NoFaults, repo, tag, Manifest(raw, cfg, [a, b])) == s
    ensures Lookup(TagSync(s, NoFaults, repo, tag, Manifest(raw, cfg, [a, b])).manifests, repo, tag)
            == Some(Manifest(raw', cfg, [b, a]))
  {
    var m := Manifest(raw, cfg, [a, b]);
    var d := Manifest(raw', cfg, [b, a]);
    var dst := Descriptors(d);
    assert dst == [cfg, b, a];
    assert Descriptors(m) == [cfg, a, b];
    assert HasDigest(dst, cfg.digest) by { assert dst[0].digest == cfg.digest; }
    assert HasDigest(dst, b.digest) by { assert dst[1].digest == b.digest; }
    assert HasDigest(dst, a.digest) by { assert dst[2].digest == a.digest; }
    DriftKept(s, NoFaults, repo, tag, m, d);
  }

  /** The source lists only tag v1 of the repository: the destination's other tag is deleted. */
  lemma StaleTagPruned(repo: RepoName, v1: Tag, stale: Tag, m: Manifest, m': Manifest)
    requires v1 != stale
    ensures
      var src := SourceRegistry([repo], map[repo := Listed([v1])], map[repo := map[v1 := m]]);
      var s := Store(map[repo := map[v1 := m, stale := m']], {}, []);
      PrunePass(s, NoFaults, src, {repo}) == Store(map[repo := map[v1 := m]], {}, [])
  {
    var tags := map[v1 := m, stale := m'];
    assert stale !in [v1];
    assert PrunedTags(tags, repo, [v1], NoFaults) == map[v1 := m];
  }
}
