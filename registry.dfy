/**
 * The mirror run as functions of the destination's state (main.py lines
 * 36-106): the source is a value that is only read, the destination a map
 * from repository to a map from tag to manifest, plus a set of blob digests,
 * plus the sequence of writes performed so far.
 */
module Registry {
  import opened Wrappers
  import opened Manifests
  import opened Diff

  type RepoName = string
  type Tag = string

  /** Manifests by repository and tag. */
  type TagTable = map<RepoName, map<Tag, Manifest>>

  /** The answer to listing a repository's tags: denied access, or the tag names. */
  datatype Listing = Denied | Listed(tags: seq<Tag>)

  /**
   * The source registry: its repository list (line 32), the answer to listing
   * each repository's tags (lines 41, 87) and the manifest of each tag (line 47).
   */
  datatype SourceRegistry = SourceRegistry(catalog: seq<RepoName>, listing: map<RepoName, Listing>, manifests: TagTable)
  {
    /** Every listed repository can be listed, and every listed tag can be read. */
    predicate Valid()
    {
      (forall r :: r in catalog ==> r in listing) &&
      (forall r :: r in listing && listing[r].Listed? ==>
        r in manifests && forall t :: t in listing[r].tags ==> t in manifests[r])
    }
  }

  /** Tag t of repository r is in the source's tag listing and has a manifest there. */
  predicate ListedTag(src: SourceRegistry, r: RepoName, t: Tag)
  {
    r in src.listing && src.listing[r].Listed? && t in src.listing[r].tags &&
    r in src.manifests && t in src.manifests[r]
  }

  /**
   * How the destination answers besides its contents: reads of these tags'
   * manifests fail with an HTTP error, listing these repositories is denied,
   * and deleting these tags is rejected.
   */
  datatype DestinationFaults = DestinationFaults(
    unreadable: set<(RepoName, Tag)>,
    unlistable: set<RepoName>,
    undeletable: set<(RepoName, Tag)>)

  /** A write to the destination: a blob push (line 74) or a manifest publish (line 79). */
  datatype Event = BlobPushed(digest: Digest) | ManifestSet(repository: RepoName, tag: Tag, raw: string)

  /** The destination registry's state and the writes made to it so far. */
  datatype Store = Store(manifests: TagTable, blobs: set<Digest>, trace: seq<Event>)

  function Lookup(table: TagTable, repo: RepoName, tag: Tag): Option<Manifest>
  {
    if repo in table && tag in table[repo] then Some(table[repo][tag]) else None
  }

  /** Reading the destination manifest of a tag (line 52). */
  function Read(s: Store, faults: DestinationFaults, repo: RepoName, tag: Tag): Fetched
  {
    match Lookup(s.manifests, repo, tag)
    case Some(m) => if (repo, tag) in faults.unreadable then HttpError else Found(m)
    case None => HttpError
  }

  /** The table after publishing m as repo:tag, creating the repository if needed. */
  function Put(table: TagTable, repo: RepoName, tag: Tag, m: Manifest): (r: TagTable)
    ensures Lookup(r, repo, tag) == Some(m)
    ensures r.Keys == table.Keys + {repo}
    ensures forall repo', tag' :: (repo', tag') != (repo, tag) ==> Lookup(r, repo', tag') == Lookup(table, repo', tag')
  {
    table[repo := (if repo in table then table[repo] else map[])[tag := m]]
  }

  function DigestSet(ds: seq<Descriptor>): set<Digest>
  {
    set d | d in ds :: d.digest
  }

  function Digests(ds: seq<Descriptor>): seq<Digest>
  {
    seq(|ds|, k requires 0 <= k < |ds| => ds[k].digest)
  }

  function Pushes(ds: seq<Descriptor>): seq<Event>
  {
    seq(|ds|, k requires 0 <= k < |ds| => BlobPushed(ds[k].digest))
  }

  lemma PushAppend(ds: seq<Descriptor>, d: Descriptor)
    ensures Digests(ds + [d]) == Digests(ds) + [d.digest]
    ensures Pushes(ds + [d]) == Pushes(ds) + [BlobPushed(d.digest)]
    ensures DigestSet(ds + [d]) == DigestSet(ds) + {d.digest}
  {
    assert forall k :: 0 <= k < |ds| ==> (ds + [d])[k] == ds[k];
  }

  /**
   * One tag's sync (lines 47-79): when some blob is to be transferred, push
   * each in order and then publish the source's raw manifest; otherwise leave
   * the destination as it is.
   */
  function TagSync(s: Store, faults: DestinationFaults, repo: RepoName, tag: Tag, m: Manifest): Store
  {
    var missing := ToTransfer(m, Read(s, faults, repo, tag));
    if missing == [] then s
    else Store(Put(s.manifests, repo, tag, m), s.blobs + DigestSet(missing),
               s.trace + Pushes(missing) + [ManifestSet(repo, tag, m.raw)])
  }

  /** The inner loop over a repository's source tags (lines 46-79). */
  function RepositorySync(s: Store, faults: DestinationFaults, repo: RepoName, tags: seq<Tag>, source: map<Tag, Manifest>): Store
    requires forall t :: t in tags ==> t in source
    decreases |tags|
  {
    if tags == [] then s
    else RepositorySync(TagSync(s, faults, repo, tags[0], source[tags[0]]), faults, repo, tags[1..], source)
  }

  /** The outer loop of the mirror pass (lines 36-79); a denied repository is skipped. */
  function MirrorPass(s: Store, faults: DestinationFaults, src: SourceRegistry, repos: seq<RepoName>): Store
    requires src.Valid()
    requires forall r :: r in repos ==> r in src.listing
    decreases |repos|
  {
    if repos == [] then s
    else
      var s' := match src.listing[repos[0]]
        case Denied => s
        case Listed(tags) => RepositorySync(s, faults, repos[0], tags, src.manifests[repos[0]]);
      MirrorPass(s', faults, src, repos[1..])
  }

  /**
   * The source tags the prune pass compares against (lines 85-92): none when
   * the repository is not at the source or listing it there is denied.
   */
  function SourceTags(src: SourceRegistry, repo: RepoName): seq<Tag>
    requires src.Valid()
  {
    if repo in src.catalog then
      match src.listing[repo]
      case Denied => []
      case Listed(tags) => tags
    else []
  }

  /**
   * A destination repository's tags after its prune (lines 100-106): a tag
   * survives when the source has it or the destination rejects its delete.
   */
  function PrunedTags(tags: map<Tag, Manifest>, repo: RepoName, sourceTags: seq<Tag>, faults: DestinationFaults): map<Tag, Manifest>
  {
    map t | t in tags && (t in sourceTags || (repo, t) in faults.undeletable) :: tags[t]
  }

  /**
   * The prune pass (lines 81-106) over the destination repositories `repos`;
   * a repository whose destination listing is denied is skipped.
   */
  function PrunePass(s: Store, faults: DestinationFaults, src: SourceRegistry, repos: set<RepoName>): Store
    requires src.Valid()
  {
    s.(manifests := map r | r in s.manifests ::
      if r in repos && r !in faults.unlistable then PrunedTags(s.manifests[r], r, SourceTags(src, r), faults)
      else s.manifests[r])
  }

  /**
   * The whole run (lines 31-106): the destination's repository list is taken
   * before the mirror pass, and the prune pass goes over that list.
   */
  function RunPass(s: Store, faults: DestinationFaults, src: SourceRegistry): Store
    requires src.Valid()
  {
    PrunePass(MirrorPass(s, faults, src, src.catalog), faults, src, s.manifests.Keys)
  }

  // ---------------------------------------------------------------------------
  // One tag

  /** A sync of this tag would transfer nothing. */
  predicate UpToDate(s: Store, faults: DestinationFaults, repo: RepoName, tag: Tag, m: Manifest)
  {
    ToTransfer(m, Read(s, faults, repo, tag)) == []
  }

  /** The destination is left exactly as it was iff nothing is to be transferred. */
  lemma TagSyncUnchangedIff(s: Store, faults: DestinationFaults, repo: RepoName, tag: Tag, m: Manifest)
    ensures TagSync(s, faults, repo, tag, m) == s <==> UpToDate(s, faults, repo, tag, m)
  {
    if !UpToDate(s, faults, repo, tag, m) {
      assert |TagSync(s, faults, repo, tag, m).trace| > |s.trace|;
    }
  }

  /**
   * When something is transferred: each transferred digest is pushed, in
   * order, before the source manifest is published; afterwards the tag holds
   * the source manifest, raw string included, and the blob set gained exactly
   * the pushed digests.
   */
  lemma TagSyncPublishes(s: Store, faults: DestinationFaults, repo: RepoName, tag: Tag, m: Manifest)
    requires !UpToDate(s, faults, repo, tag, m)
    ensures var missing := ToTransfer(m, Read(s, faults, repo, tag));
            var r := TagSync(s, faults, repo, tag, m);
            && r.trace == s.trace + Pushes(missing) + [ManifestSet(repo, tag, m.raw)]
            && (forall k :: 0 <= k < |missing| ==> r.trace[|s.trace| + k] == BlobPushed(missing[k].digest))
            && r.trace[|r.trace| - 1] == ManifestSet(repo, tag, m.raw)
            && Lookup(r.manifests, repo, tag) == Some(m)
            && r.manifests[repo][tag].raw == m.raw
            && r.blobs == s.blobs + DigestSet(missing)
            && (forall k :: 0 <= k < |missing| ==> missing[k].digest in r.blobs)
  {
  }

  /** A tag's sync touches no other tag, and blobs and writes only accumulate. */
  lemma TagSyncFrame(s: Store, faults: DestinationFaults, repo: RepoName, tag: Tag, m: Manifest, repo': RepoName, tag': Tag)
    requires (repo', tag') != (repo, tag)
    ensures var r := TagSync(s, faults, repo, tag, m);
            && Lookup(r.manifests, repo', tag') == Lookup(s.manifests, repo', tag')
            && s.manifests.Keys <= r.manifests.Keys <= s.manifests.Keys + {repo}
            && s.blobs <= r.blobs
            && s.trace <= r.trace
  {
  }

  /** After a sync of a readable tag, another sync of it would transfer nothing. */
  lemma TagSyncEstablishes(s: Store, faults: DestinationFaults, repo: RepoName, tag: Tag, m: Manifest)
    requires (repo, tag) !in faults.unreadable
    ensures UpToDate(TagSync(s, faults, repo, tag, m), faults, repo, tag, m)
  {
    if !UpToDate(s, faults, repo, tag, m) {
      SelfTransferEmpty(m);
    }
  }

  /** Idempotence of one tag's sync, for a tag whose destination manifest can be read. */
  lemma TagSyncIdempotent(s: Store, faults: DestinationFaults, repo: RepoName, tag: Tag, m: Manifest)
    requires (repo, tag) !in faults.unreadable
    ensures var r := TagSync(s, faults, repo, tag, m);
            TagSync(r, faults, repo, tag, m) == r
  {
    TagSyncEstablishes(s, faults, repo, tag, m);
  }

  /**
   * A tag whose destination read fails is written again on every run unless
   * all its blobs are foreign: it is handled as if it were absent.
   */
  lemma UnreadableTagRewritten(s: Store, faults: DestinationFaults, repo: RepoName, tag: Tag, m: Manifest)
    requires (repo, tag) in faults.unreadable
    requires exists d :: d in Descriptors(m) && !IsForeign(d)
    ensures var r := TagSync(s, faults, repo, tag, m);
            r.trace == s.trace + Pushes(DropForeign(Descriptors(m))) + [ManifestSet(repo, tag, m.raw)]
  {
    var d :| d in Descriptors(m) && !IsForeign(d);
    assert multiset(DropForeign(Descriptors(m)))[d] > 0;
  }

  /**
   * A manifest all of whose blobs are foreign is never written, not even to a
   * tag the destination lacks: there is nothing to push, so the publish is
   * skipped too.
   */
  lemma AllForeignNeverWritten(s: Store, faults: DestinationFaults, repo: RepoName, tag: Tag, m: Manifest)
    requires forall d :: d in Descriptors(m) ==> IsForeign(d)
    ensures TagSync(s, faults, repo, tag, m) == s
  {
    assert m.config in Descriptors(m);
    forall k | 0 <= k < |m.layers| ensures IsForeign(m.layers[k]) {
      assert Descriptors(m)[k + 1] == m.layers[k];
    }
    NothingToTransferIff(m, Read(s, faults, repo, tag));
  }

  /**
   * A readable destination manifest d that already lists every source digest
   * is kept as it is, even when its raw string differs from the source's (other
   * layer order, extra layers, other formatting): the tag is not republished.
   */
  lemma DriftKept(s: Store, faults: DestinationFaults, repo: RepoName, tag: Tag, m: Manifest, d: Manifest)
    requires (repo, tag) !in faults.unreadable
    requires Lookup(s.manifests, repo, tag) == Some(d)
    requires forall k :: 0 <= k < |Descriptors(m)| ==> HasDigest(Descriptors(d), Descriptors(m)[k].digest)
    ensures TagSync(s, faults, repo, tag, m) == s
    ensures Lookup(TagSync(s, faults, repo, tag, m).manifests, repo, tag) == Some(d)
  {
    assert Read(s, faults, repo, tag) == Found(d);
    assert HasDigest(Descriptors(d), m.config.digest) by { assert Descriptors(m)[0] == m.config; }
    forall k | 0 <= k < |m.layers| ensures HasDigest(Descriptors(d), m.layers[k].digest) {
      assert Descriptors(m)[k + 1] == m.layers[k];
    }
    NothingToTransferIff(m, Found(d));
  }

  /** Whether a tag is up to date depends only on that tag's destination manifest. */
  lemma UpToDateLocal(s: Store, s': Store, faults: DestinationFaults, repo: RepoName, tag: Tag, m: Manifest)
    requires Lookup(s.manifests, repo, tag) == Lookup(s'.manifests, repo, tag)
    ensures UpToDate(s, faults, repo, tag, m) <==> UpToDate(s', faults, repo, tag, m)
  {
    assert Read(s, faults, repo, tag) == Read(s', faults, repo, tag);
  }

  /** A tag's sync keeps every tag up to date that was (the synced one too, if readable). */
  lemma TagSyncPreserves(s: Store, faults: DestinationFaults, repo: RepoName, tag: Tag, m: Manifest,
                         repo': RepoName, tag': Tag, m': Manifest)
    requires UpToDate(s, faults, repo', tag', m')
    requires (repo', tag') != (repo, tag) || (m' == m && (repo, tag) !in faults.unreadable)
    ensures UpToDate(TagSync(s, faults, repo, tag, m), faults, repo', tag', m')
  {
    if (repo', tag') != (repo, tag) {
      TagSyncFrame(s, faults, repo, tag, m, repo', tag');
      UpToDateLocal(s, TagSync(s, faults, repo, tag, m), faults, repo', tag', m');
    } else {
      TagSyncEstablishes(s, faults, repo, tag, m);
    }
  }

  // ---------------------------------------------------------------------------
  // One repository

  lemma {:induction false} RepositorySyncFrame(s: Store, faults: DestinationFaults, repo: RepoName, tags: seq<Tag>,
                                               source: map<Tag, Manifest>, repo': RepoName, tag': Tag)
    requires forall t :: t in tags ==> t in source
    requires repo' != repo || tag' !in tags
    ensures Lookup(RepositorySync(s, faults, repo, tags, source).manifests, repo', tag') == Lookup(s.manifests, repo', tag')
    decreases |tags|
  {
    if tags != [] {
      TagSyncFrame(s, faults, repo, tags[0], source[tags[0]], repo', tag');
      RepositorySyncFrame(TagSync(s, faults, repo, tags[0], source[tags[0]]), faults, repo, tags[1..], source, repo', tag');
    }
  }

  /** A repository's sync only adds that repository, blobs and writes. */
  lemma {:induction false} RepositorySyncGrows(s: Store, faults: DestinationFaults, repo: RepoName, tags: seq<Tag>,
                                               source: map<Tag, Manifest>)
    requires forall t :: t in tags ==> t in source
    ensures var r := RepositorySync(s, faults, repo, tags, source);
            && s.manifests.Keys <= r.manifests.Keys <= s.manifests.Keys + {repo}
            && s.blobs <= r.blobs
            && s.trace <= r.trace
    decreases |tags|
  {
    if tags != [] {
      var s1 := TagSync(s, faults, repo, tags[0], source[tags[0]]);
      assert s.manifests.Keys <= s1.manifests.Keys <= s.manifests.Keys + {repo} && s.blobs <= s1.blobs && s.trace <= s1.trace;
      RepositorySyncGrows(s1, faults, repo, tags[1..], source);
    }
  }

  lemma {:induction false} RepositorySyncPreserves(s: Store, faults: DestinationFaults, repo: RepoName, tags: seq<Tag>,
                                                   source: map<Tag, Manifest>, repo': RepoName, tag': Tag, m': Manifest)
    requires forall t :: t in tags ==> t in source
    requires UpToDate(s, faults, repo', tag', m')
    requires repo' != repo || tag' !in tags || (m' == source[tag'] && (repo, tag') !in faults.unreadable)
    ensures UpToDate(RepositorySync(s, faults, repo, tags, source), faults, repo', tag', m')
    decreases |tags|
  {
    if tags != [] {
      var s1 := TagSync(s, faults, repo, tags[0], source[tags[0]]);
      TagSyncPreserves(s, faults, repo, tags[0], source[tags[0]], repo', tag', m');
      RepositorySyncPreserves(s1, faults, repo, tags[1..], source, repo', tag', m');
    }
  }

  /**
   * After a repository's sync, none of its readable source tags needs another
   * transfer, whatever happens to the unreadable ones.
   */
  lemma {:induction false} RepositorySyncEstablishes(s: Store, faults: DestinationFaults, repo: RepoName, tags: seq<Tag>,
                                                     source: map<Tag, Manifest>)
    requires forall t :: t in tags ==> t in source
    ensures forall t :: t in tags && (repo, t) !in faults.unreadable ==>
              UpToDate(RepositorySync(s, faults, repo, tags, source), faults, repo, t, source[t])
    decreases |tags|
  {
    if tags != [] {
      var s1 := TagSync(s, faults, repo, tags[0], source[tags[0]]);
      RepositorySyncEstablishes(s1, faults, repo, tags[1..], source);
      if (repo, tags[0]) !in faults.unreadable {
        TagSyncEstablishes(s, faults, repo, tags[0], source[tags[0]]);
        RepositorySyncPreserves(s1, faults, repo, tags[1..], source, repo, tags[0], source[tags[0]]);
      }
      assert tags == [tags[0]] + tags[1..];
    }
  }

  lemma {:induction false} RepositorySyncFixpoint(s: Store, faults: DestinationFaults, repo: RepoName, tags: seq<Tag>,
                                                  source: map<Tag, Manifest>)
    requires forall t :: t in tags ==> t in source && UpToDate(s, faults, repo, t, source[t])
    ensures RepositorySync(s, faults, repo, tags, source) == s
    decreases |tags|
  {
    if tags != [] {
      assert tags[0] in tags;
      RepositorySyncFixpoint(s, faults, repo, tags[1..], source);
    }
  }

  // ---------------------------------------------------------------------------
  // The mirror pass

  /** Every source tag of these repositories is up to date at the destination. */
  ghost predicate Mirrored(s: Store, faults: DestinationFaults, src: SourceRegistry, repos: seq<RepoName>)
  {
    forall r, t :: r in repos && ListedTag(src, r, t) ==> UpToDate(s, faults, r, t, src.manifests[r][t])
  }

  /** Every readable source tag of these repositories is up to date at the destination. */
  ghost predicate MirroredReadable(s: Store, faults: DestinationFaults, src: SourceRegistry, repos: seq<RepoName>)
  {
    forall r, t :: r in repos && ListedTag(src, r, t) && (r, t) !in faults.unreadable ==>
      UpToDate(s, faults, r, t, src.manifests[r][t])
  }

  /** No listed source tag of these repositories has an unreadable destination manifest. */
  ghost predicate NoReadFaults(faults: DestinationFaults, src: SourceRegistry, repos: seq<RepoName>)
  {
    forall r, t :: r in repos && ListedTag(src, r, t) ==> (r, t) !in faults.unreadable
  }

  /**
   * The mirror pass changes only tags that the source lists in a repository it
   * could list: a repository whose listing is denied causes no change.
   */
  lemma {:induction false} MirrorPassFrame(s: Store, faults: DestinationFaults, src: SourceRegistry, repos: seq<RepoName>,
                                           repo: RepoName, tag: Tag)
    requires src.Valid()
    requires forall r :: r in repos ==> r in src.listing
    requires !(repo in repos && ListedTag(src, repo, tag))
    ensures Lookup(MirrorPass(s, faults, src, repos).manifests, repo, tag) == Lookup(s.manifests, repo, tag)
    decreases |repos|
  {
    if repos != [] {
      var s1 := match src.listing[repos[0]]
        case Denied => s
        case Listed(tags) => RepositorySync(s, faults, repos[0], tags, src.manifests[repos[0]]);
      if src.listing[repos[0]].Listed? {
        RepositorySyncFrame(s, faults, repos[0], src.listing[repos[0]].tags, src.manifests[repos[0]], repo, tag);
      }
      MirrorPassFrame(s1, faults, src, repos[1..], repo, tag);
    }
  }

  /** The mirror pass deletes no repository and only adds blobs and writes. */
  lemma {:induction false} MirrorPassGrows(s: Store, faults: DestinationFaults, src: SourceRegistry, repos: seq<RepoName>)
    requires src.Valid()
    requires forall r :: r in repos ==> r in src.listing
    ensures var r := MirrorPass(s, faults, src, repos);
            && s.manifests.Keys <= r.manifests.Keys
            && s.blobs <= r.blobs
            && s.trace <= r.trace
    decreases |repos|
  {
    if repos != [] {
      var s1 := match src.listing[repos[0]]
        case Denied => s
        case Listed(tags) => RepositorySync(s, faults, repos[0], tags, src.manifests[repos[0]]);
      if src.listing[repos[0]].Listed? {
        RepositorySyncGrows(s, faults, repos[0], src.listing[repos[0]].tags, src.manifests[repos[0]]);
      }
      MirrorPassGrows(s1, faults, src, repos[1..]);
    }
  }

  /** A repository whose source listing is denied is left as it was. */
  lemma MirrorPassSkipsDenied(s: Store, faults: DestinationFaults, src: SourceRegistry, repos: seq<RepoName>, repo: RepoName)
    requires src.Valid()
    requires forall r :: r in repos ==> r in src.listing
    requires repo in src.listing && src.listing[repo].Denied?
    ensures var r := MirrorPass(s, faults, src, repos);
            forall tag :: Lookup(r.manifests, repo, tag) == Lookup(s.manifests, repo, tag)
  {
    forall tag ensures Lookup(MirrorPass(s, faults, src, repos).manifests, repo, tag) == Lookup(s.manifests, repo, tag) {
      MirrorPassFrame(s, faults, src, repos, repo, tag);
    }
  }

  /** The repositories of `repos` whose source listing is not denied, in order. */
  function Listable(src: SourceRegistry, repos: seq<RepoName>): (r: seq<RepoName>)
    requires forall x :: x in repos ==> x in src.listing
    ensures IsSubsequence(r, repos)
    ensures forall x :: x in r <==> x in repos && src.listing[x].Listed?
    decreases |repos|
  {
    if repos == [] then []
    else
      var rest := Listable(src, repos[1..]);
      assert repos == [repos[0]] + repos[1..];
      if src.listing[repos[0]].Denied? then rest else [repos[0]] + rest
  }

  /**
   * A repository whose source listing is denied contributes nothing to the
   * mirror pass, blobs and writes included: the pass is the same as one over
   * the listable repositories alone, and it goes on with the next repository.
   */
  lemma {:induction false} MirrorPassIgnoresDenied(s: Store, faults: DestinationFaults, src: SourceRegistry, repos: seq<RepoName>)
    requires src.Valid()
    requires forall r :: r in repos ==> r in src.listing
    ensures MirrorPass(s, faults, src, repos) == MirrorPass(s, faults, src, Listable(src, repos))
    decreases |repos|
  {
    if repos != [] {
      var head := repos[0];
      if src.listing[head].Denied? {
        assert Listable(src, repos) == Listable(src, repos[1..]);
        MirrorPassIgnoresDenied(s, faults, src, repos[1..]);
      } else {
        var l := Listable(src, repos);
        assert l == [head] + Listable(src, repos[1..]);
        assert l[0] == head && l[1..] == Listable(src, repos[1..]);
        var s1 := RepositorySync(s, faults, head, src.listing[head].tags, src.manifests[head]);
        assert MirrorPass(s, faults, src, repos) == MirrorPass(s1, faults, src, repos[1..]);
        assert MirrorPass(s, faults, src, l) == MirrorPass(s1, faults, src, l[1..]);
        MirrorPassIgnoresDenied(s1, faults, src, repos[1..]);
      }
    }
  }

  lemma {:induction false} MirrorPassPreserves(s: Store, faults: DestinationFaults, src: SourceRegistry, repos: seq<RepoName>,
                                               repo: RepoName, tag: Tag)
    requires src.Valid()
    requires forall r :: r in repos ==> r in src.listing
    requires ListedTag(src, repo, tag) && (repo, tag) !in faults.unreadable
    requires UpToDate(s, faults, repo, tag, src.manifests[repo][tag])
    ensures UpToDate(MirrorPass(s, faults, src, repos), faults, repo, tag, src.manifests[repo][tag])
    decreases |repos|
  {
    if repos != [] {
      var s1 := match src.listing[repos[0]]
        case Denied => s
        case Listed(tags) => RepositorySync(s, faults, repos[0], tags, src.manifests[repos[0]]);
      if src.listing[repos[0]].Listed? {
        RepositorySyncPreserves(s, faults, repos[0], src.listing[repos[0]].tags, src.manifests[repos[0]],
                                repo, tag, src.manifests[repo][tag]);
      }
      MirrorPassPreserves(s1, faults, src, repos[1..], repo, tag);
    }
  }

  /** After the mirror pass every listed, readable source tag is up to date. */
  lemma {:induction false} MirrorPassEstablishes(s: Store, faults: DestinationFaults, src: SourceRegistry, repos: seq<RepoName>)
    requires src.Valid()
    requires forall r :: r in repos ==> r in src.listing
    ensures MirroredReadable(MirrorPass(s, faults, src, repos), faults, src, repos)
    decreases |repos|
  {
    if repos != [] {
      var head := repos[0];
      var s1 := match src.listing[head]
        case Denied => s
        case Listed(tags) => RepositorySync(s, faults, head, tags, src.manifests[head]);
      var r := MirrorPass(s1, faults, src, repos[1..]);
      MirrorPassEstablishes(s1, faults, src, repos[1..]);
      if src.listing[head].Listed? {
        RepositorySyncEstablishes(s, faults, head, src.listing[head].tags, src.manifests[head]);
        forall t | ListedTag(src, head, t) && (head, t) !in faults.unreadable
          ensures UpToDate(r, faults, head, t, src.manifests[head][t])
        {
          MirrorPassPreserves(s1, faults, src, repos[1..], head, t);
        }
      }
      assert repos == [head] + repos[1..];
    }
  }

  lemma {:induction false} MirrorPassFixpoint(s: Store, faults: DestinationFaults, src: SourceRegistry, repos: seq<RepoName>)
    requires src.Valid()
    requires forall r :: r in repos ==> r in src.listing
    requires Mirrored(s, faults, src, repos)
    ensures MirrorPass(s, faults, src, repos) == s
    decreases |repos|
  {
    if repos != [] {
      var head := repos[0];
      if src.listing[head].Listed? {
        RepositorySyncFixpoint(s, faults, head, src.listing[head].tags, src.manifests[head]);
      }
      MirrorPassFixpoint(s, faults, src, repos[1..]);
    }
  }

  /**
   * Running the mirror pass again over an unchanged source pushes no blob and
   * publishes no manifest, provided the destination can read back its tags.
   */
  lemma MirrorPassIdempotent(s: Store, faults: DestinationFaults, src: SourceRegistry)
    requires src.Valid()
    requires NoReadFaults(faults, src, src.catalog)
    ensures var r := MirrorPass(s, faults, src, src.catalog);
            MirrorPass(r, faults, src, src.catalog) == r
  {
    MirrorPassEstablishes(s, faults, src, src.catalog);
    assert Mirrored(MirrorPass(s, faults, src, src.catalog), faults, src, src.catalog);
    MirrorPassFixpoint(MirrorPass(s, faults, src, src.catalog), faults, src, src.catalog);
  }

  // ---------------------------------------------------------------------------
  // The prune pass

  /**
   * In each pruned repository exactly the tags missing from the source's list
   * are deleted (those whose delete the destination rejects stay); the tags
   * that stay keep their manifests whatever their content.
   */
  lemma PrunePassDeletesExactly(s: Store, faults: DestinationFaults, src: SourceRegistry, repos: set<RepoName>,
                                repo: RepoName, tag: Tag)
    requires src.Valid()
    requires repo in repos && repo in s.manifests && repo !in faults.unlistable
    ensures var r := PrunePass(s, faults, src, repos);
            && (Lookup(r.manifests, repo, tag).Some? <==>
                  Lookup(s.manifests, repo, tag).Some? && (tag in SourceTags(src, repo) || (repo, tag) in faults.undeletable))
            && (Lookup(r.manifests, repo, tag).Some? ==> Lookup(r.manifests, repo, tag) == Lookup(s.manifests, repo, tag))
  {
  }

  /** A repository that is missing at the source, or denied there, loses every tag it can. */
  lemma PrunePassEmptiesSourceless(s: Store, faults: DestinationFaults, src: SourceRegistry, repos: set<RepoName>, repo: RepoName)
    requires src.Valid()
    requires repo in repos && repo in s.manifests && repo !in faults.unlistable
    requires repo !in src.catalog || src.listing[repo].Denied?
    ensures var r := PrunePass(s, faults, src, repos);
            repo in r.manifests && forall tag :: tag in r.manifests[repo] ==> (repo, tag) in faults.undeletable
  {
  }

  /** The prune pass changes only listable repositories of `repos` and writes nothing. */
  lemma PrunePassFrame(s: Store, faults: DestinationFaults, src: SourceRegistry, repos: set<RepoName>, repo: RepoName)
    requires src.Valid()
    requires repo !in repos || repo in faults.unlistable
    ensures var r := PrunePass(s, faults, src, repos);
            && r.manifests.Keys == s.manifests.Keys
            && (repo in s.manifests ==> r.manifests[repo] == s.manifests[repo])
            && r.blobs == s.blobs && r.trace == s.trace
  {
  }

  /** In a state where every destination tag would survive the prune, the prune does nothing. */
  lemma PrunePassFixpoint(s: Store, faults: DestinationFaults, src: SourceRegistry, repos: set<RepoName>)
    requires src.Valid()
    requires forall r, t :: r in repos && r in s.manifests && r !in faults.unlistable && t in s.manifests[r] ==>
               t in SourceTags(src, r) || (r, t) in faults.undeletable
    ensures PrunePass(s, faults, src, repos) == s
  {
    var r := PrunePass(s, faults, src, repos);
    forall repo | repo in s.manifests ensures r.manifests[repo] == s.manifests[repo] {
      if repo in repos && repo !in faults.unlistable {
        assert PrunedTags(s.manifests[repo], repo, SourceTags(src, repo), faults) == s.manifests[repo];
      }
    }
    assert r.manifests == s.manifests;
  }

  /** Pruning twice with the same repositories is pruning once. */
  lemma PrunePassIdempotent(s: Store, faults: DestinationFaults, src: SourceRegistry, repos: set<RepoName>)
    requires src.Valid()
    ensures var r := PrunePass(s, faults, src, repos);
            PrunePass(r, faults, src, repos) == r
  {
    var r := PrunePass(s, faults, src, repos);
    PrunePassFixpoint(r, faults, src, repos);
  }

  /** The prune pass keeps every source tag of the source's repositories, so it keeps them up to date. */
  lemma PrunePassKeepsMirrored(s: Store, faults: DestinationFaults, src: SourceRegistry, repos: set<RepoName>)
    requires src.Valid()
    requires Mirrored(s, faults, src, src.catalog)
    ensures Mirrored(PrunePass(s, faults, src, repos), faults, src, src.catalog)
  {
    var s' := PrunePass(s, faults, src, repos);
    forall r, t | r in src.catalog && ListedTag(src, r, t) ensures UpToDate(s', faults, r, t, src.manifests[r][t]) {
      assert t in SourceTags(src, r);
      assert Lookup(s'.manifests, r, t) == Lookup(s.manifests, r, t);
      UpToDateLocal(s, s', faults, r, t, src.manifests[r][t]);
    }
  }

  // ---------------------------------------------------------------------------
  // The whole run

  /** A tag the mirror pass creates is one the source lists. */
  lemma MirrorPassCreatesOnlyListed(s: Store, faults: DestinationFaults, src: SourceRegistry, repos: seq<RepoName>,
                                    repo: RepoName, tag: Tag)
    requires src.Valid()
    requires forall r :: r in repos ==> r in src.listing
    requires Lookup(s.manifests, repo, tag).None?
    requires Lookup(MirrorPass(s, faults, src, repos).manifests, repo, tag).Some?
    ensures repo in repos && ListedTag(src, repo, tag)
  {
    if !(repo in repos && ListedTag(src, repo, tag)) {
      MirrorPassFrame(s, faults, src, repos, repo, tag);
    }
  }

  /** After a run, every destination tag would survive another prune. */
  lemma RunPassLeavesOnlySurvivors(s: Store, faults: DestinationFaults, src: SourceRegistry)
    requires src.Valid()
    ensures var r := RunPass(s, faults, src);
            forall repo, t :: repo in r.manifests && repo !in faults.unlistable && t in r.manifests[repo] ==>
              t in SourceTags(src, repo) || (repo, t) in faults.undeletable
  {
    var s1 := MirrorPass(s, faults, src, src.catalog);
    var s2 := PrunePass(s1, faults, src, s.manifests.Keys);
    forall repo, t | repo in s2.manifests && repo !in faults.unlistable && t in s2.manifests[repo]
      ensures t in SourceTags(src, repo) || (repo, t) in faults.undeletable
    {
      if repo !in s.manifests {
        assert s2.manifests[repo] == s1.manifests[repo];
        MirrorPassCreatesOnlyListed(s, faults, src, src.catalog, repo, t);
      }
    }
  }

  /**
   * Running the whole mirror a second time over an unchanged source changes
   * nothing: no blob pushed, no manifest published, no tag deleted.
   */
  lemma RunPassIdempotent(s: Store, faults: DestinationFaults, src: SourceRegistry)
    requires src.Valid()
    requires NoReadFaults(faults, src, src.catalog)
    ensures var r := RunPass(s, faults, src);
            RunPass(r, faults, src) == r
  {
    var s1 := MirrorPass(s, faults, src, src.catalog);
    var s2 := PrunePass(s1, faults, src, s.manifests.Keys);
    MirrorPassEstablishes(s, faults, src, src.catalog);
    assert Mirrored(s1, faults, src, src.catalog);
    PrunePassKeepsMirrored(s1, faults, src, s.manifests.Keys);
    MirrorPassFixpoint(s2, faults, src, src.catalog);
    RunPassLeavesOnlySurvivors(s, faults, src);
    PrunePassFixpoint(s2, faults, src, s2.manifests.Keys);
  }
}
