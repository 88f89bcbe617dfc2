/**
 * The mirror script's loops (main.py lines 31-106) over a destination
 * registry that is updated in place. The registry operations the script
 * calls on the destination are methods of `Destination`; each loop is proved
 * to leave the destination in the state the functions of `Registry` describe.
 */
module Mirror {
  import opened Wrappers
  import opened Manifests
  import opened Diff
  import opened Registry

  /** The destination registry: tags, blobs, and the writes made to it so far. */
  class Destination {
    var manifests: TagTable
    var blobs: set<Digest>
    ghost var trace: seq<Event>
    const faults: DestinationFaults

    constructor (manifests: TagTable, blobs: set<Digest>, faults: DestinationFaults)
      ensures this.manifests == manifests && this.blobs == blobs && this.faults == faults
      ensures trace == []
    {
      this.manifests := manifests;
      this.blobs := blobs;
      this.faults := faults;
      this.trace := [];
    }

    ghost function State(): Store
      reads this
    {
      Store(manifests, blobs, trace)
    }

    /** `list_repos` on the destination (line 34). */
    method ListRepositories() returns (repos: set<RepoName>)
      ensures repos == manifests.Keys
    {
      repos := manifests.Keys;
    }

    /** `list_aliases` on a destination repository (line 95): denied, or its tags. */
    method ListTags(repo: RepoName) returns (denied: bool, tags: set<Tag>)
      requires repo in manifests
      ensures denied <==> repo in faults.unlistable
      ensures !denied ==> tags == manifests[repo].Keys
    {
      denied := repo in faults.unlistable;
      tags := if denied then {} else manifests[repo].Keys;
    }

    /** `get_manifest_and_response` on the destination (line 52). */
    method GetManifest(repo: RepoName, tag: Tag) returns (fetched: Fetched)
      ensures fetched.Found? <==> Lookup(manifests, repo, tag).Some? && (repo, tag) !in faults.unreadable
      ensures fetched.Found? ==> Some(fetched.manifest) == Lookup(manifests, repo, tag)
    {
      if repo in manifests && tag in manifests[repo] && (repo, tag) !in faults.unreadable {
        fetched := Found(manifests[repo][tag]);
      } else {
        fetched := HttpError;
      }
    }

    /** `push_blob` (line 74). */
    method PushBlob(digest: Digest)
      modifies this
      ensures manifests == old(manifests) && blobs == old(blobs) + {digest}
      ensures trace == old(trace) + [BlobPushed(digest)]
    {
      blobs := blobs + {digest};
      trace := trace + [BlobPushed(digest)];
    }

    /** `set_manifest` (line 79): publish the raw manifest under repo:tag. */
    method SetManifest(repo: RepoName, tag: Tag, m: Manifest)
      modifies this
      ensures manifests == Put(old(manifests), repo, tag, m) && blobs == old(blobs)
      ensures trace == old(trace) + [ManifestSet(repo, tag, m.raw)]
    {
      var tags := if repo in manifests then manifests[repo] else map[];
      manifests := manifests[repo := tags[tag := m]];
      trace := trace + [ManifestSet(repo, tag, m.raw)];
    }

    /** `del_alias` (line 104); `rejected` is the HTTP error caught at line 105. */
    method DeleteTag(repo: RepoName, tag: Tag) returns (rejected: bool)
      requires repo in manifests
      modifies this
      ensures rejected <==> (repo, tag) in faults.undeletable
      ensures manifests == if rejected then old(manifests) else old(manifests)[repo := old(manifests)[repo] - {tag}]
      ensures blobs == old(blobs) && trace == old(trace)
    {
      rejected := (repo, tag) in faults.undeletable;
      if !rejected {
        manifests := manifests[repo := manifests[repo] - {tag}];
      }
    }

    /** The loop pushing a tag's missing blobs in order (lines 71-76). */
    method PushBlobs(missing: seq<Descriptor>) returns (pushed: seq<Digest>)
      modifies this
      ensures pushed == Digests(missing)
      ensures manifests == old(manifests)
      ensures blobs == old(blobs) + DigestSet(missing)
      ensures trace == old(trace) + Pushes(missing)
    {
      pushed := [];
      var k := 0;
      while k < |missing|
        invariant 0 <= k <= |missing|
        invariant manifests == old(manifests)
        invariant blobs == old(blobs) + DigestSet(missing[..k])
        invariant trace == old(trace) + Pushes(missing[..k])
        invariant pushed == Digests(missing[..k])
      {
        PushBlob(missing[k].digest);
        pushed := pushed + [missing[k].digest];
        assert missing[..k + 1] == missing[..k] + [missing[k]];
        PushAppend(missing[..k], missing[k]);
        k := k + 1;
      }
      assert missing[..k] == missing;
    }

    /**
     * One tag's sync (lines 47-79): returns the digests pushed, in push order;
     * the manifest is published after them exactly when there is one.
     */
    method SyncTag(repo: RepoName, tag: Tag, m: Manifest) returns (pushed: seq<Digest>)
      modifies this
      ensures pushed == Digests(ToTransfer(m, Read(old(State()), faults, repo, tag)))
      ensures State() == TagSync(old(State()), faults, repo, tag, m)
    {
      var sourceLayers := Descriptors(m);
      var fetched := GetManifest(repo, tag);
      var missing := if fetched.HttpError? then sourceLayers
                     else MissingFrom(sourceLayers, Descriptors(fetched.manifest));
      missing := DropForeign(missing);
      assert fetched == Read(old(State()), faults, repo, tag);
      assert missing == ToTransfer(m, fetched);
      pushed := [];
      if missing != [] {
        pushed := PushBlobs(missing);
        SetManifest(repo, tag, m);
      }
    }

    /** The loop over one source repository's tags (lines 46-79). */
    method SyncTags(repo: RepoName, tags: seq<Tag>, source: map<Tag, Manifest>)
      requires forall t :: t in tags ==> t in source
      modifies this
      ensures State() == RepositorySync(old(State()), faults, repo, tags, source)
    {
      var i := 0;
      while i < |tags|
        invariant 0 <= i <= |tags|
        invariant RepositorySync(State(), faults, repo, tags[i..], source) == RepositorySync(old(State()), faults, repo, tags, source)
      {
        var tag := tags[i];
        assert tags[i..][1..] == tags[i + 1..];
        var _ := SyncTag(repo, tag, source[tag]);
        i := i + 1;
      }
    }

    /** The mirror pass (lines 36-79): a repository the source denies listing is skipped. */
    method Mirror(src: SourceRegistry)
      requires src.Valid()
      modifies this
      ensures State() == MirrorPass(old(State()), faults, src, src.catalog)
    {
      var i := 0;
      while i < |src.catalog|
        invariant 0 <= i <= |src.catalog|
        invariant MirrorPass(State(), faults, src, src.catalog[i..]) == MirrorPass(old(State()), faults, src, src.catalog)
      {
        var repository := src.catalog[i];
        assert src.catalog[i..][1..] == src.catalog[i + 1..];
        match src.listing[repository] {
          case Denied =>
          case Listed(tags) =>
            SyncTags(repository, tags, src.manifests[repository]);
        }
        i := i + 1;
      }
    }

    /** One destination repository's prune (lines 82-106). */
    method PruneRepository(src: SourceRegistry, repo: RepoName)
      requires src.Valid()
      requires repo in manifests
      modifies this
      ensures manifests == old(manifests)[repo :=
        if repo in faults.unlistable then old(manifests)[repo]
        else PrunedTags(old(manifests)[repo], repo, SourceTags(src, repo), faults)]
      ensures blobs == old(blobs) && trace == old(trace)
    {
      var sourceTags := SourceTags(src, repo);
      var denied, destinationTags := ListTags(repo);
      if denied {
        return;
      }
      ghost var original := manifests[repo];
      var remaining := destinationTags;
      while remaining != {}
        invariant remaining <= original.Keys
        invariant repo in manifests && manifests == old(manifests)[repo := manifests[repo]]
        invariant manifests[repo] ==
          map t | t in original && (t in remaining || t in sourceTags || (repo, t) in faults.undeletable) :: original[t]
        invariant blobs == old(blobs) && trace == old(trace)
        decreases remaining
      {
        var tag :| tag in remaining;
        if tag !in sourceTags {
          var _ := DeleteTag(repo, tag);
        }
        remaining := remaining - {tag};
      }
      assert manifests[repo] == PrunedTags(original, repo, sourceTags, faults);
    }

    /** The prune pass (lines 81-106) over the destination repositories listed before mirroring. */
    method Prune(src: SourceRegistry, destinationRepositories: set<RepoName>)
      requires src.Valid()
      requires destinationRepositories <= manifests.Keys
      modifies this
      ensures State() == PrunePass(old(State()), faults, src, destinationRepositories)
    {
      var remaining := destinationRepositories;
      while remaining != {}
        invariant remaining <= destinationRepositories
        invariant manifests.Keys == old(manifests).Keys
        invariant blobs == old(blobs) && trace == old(trace)
        invariant forall r :: r in manifests ==> (manifests[r] ==
          if r in destinationRepositories - remaining && r !in faults.unlistable
          then PrunedTags(old(manifests)[r], r, SourceTags(src, r), faults)
          else old(manifests)[r])
        decreases remaining
      {
        var repo :| repo in remaining;
        PruneRepository(src, repo);
        remaining := remaining - {repo};
      }
      assert manifests == PrunePass(old(State()), faults, src, destinationRepositories).manifests;
    }

    /** The whole script after argument parsing (lines 31-106). */
    method Run(src: SourceRegistry)
      requires src.Valid()
      modifies this
      ensures State() == RunPass(old(State()), faults, src)
    {
      var destinationRepositories := ListRepositories();
      Mirror(src);
      MirrorPassGrows(old(State()), faults, src, src.catalog);
      Prune(src, destinationRepositories);
    }
  }
}
