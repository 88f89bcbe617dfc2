# Docker registry mirror — Dafny model

A model of `main.py`, a script that mirrors one container-image registry onto
another. For every repository and tag of the source it compares the source
manifest's blobs (the config and the layers it references) with the blobs
listed by the destination's manifest for that same tag. The destination's
blob store is never consulted. It pushes each source blob whose digest that
manifest does not list, leaving out foreign layers; when the destination
manifest cannot be read, every non-foreign blob is pushed. Only when at least
one blob was pushed does it publish the source's raw manifest string under
the tag, so a tag with nothing to push is never republished. A second pass
deletes the destination tags that the source no longer lists, except those
whose delete the destination rejects. Both registries are given by connection strings of the form
`[username:password@]address`.

The model has seven modules:

- `Wrappers` (`wrappers.dfy`): `Option` and `Result`.
- `Manifests` (`manifests.dfy`): blob descriptors (a digest and an optional
  `urls` list), manifests (the raw string together with the parsed config and
  layers), foreign descriptors, and order-preserving subsequences.
- `Diff` (`diff.dfy`): the pure per-tag difference of lines 49-68. It has the
  "missing" filter by digest, the foreign-layer filter, and their composition
  `ToTransfer`, which also covers a failed destination read.
- `ConnectionString` (`connection.dfy`): the regular expression of line 10,
  modelled exactly (`.` is any character but a newline, `$` also matches
  before a final newline, lazy groups backtrack in lexicographic order), and
  `address_with_credentials`.
- `Registry` (`registry.dfy`): the destination as a value `Store` holding a
  map from repository to a map from tag to manifest, a set of blob digests and
  the sequence of writes made so far. The source is a value
  `SourceRegistry`. `DestinationFaults` says which destination reads, listings
  and deletes fail. There are functions for one tag's sync, one repository's
  sync, the mirror pass, the prune pass and the whole run, and lemmas about
  them: frames, idempotence, and what the prune pass deletes.
- `Scenarios` (`scenarios.dfy`): worked cases for small manifests. These are
  a newly added layer, a tag that is new to the destination, a missing
  foreign layer, reordered layers, and a stale tag.
- `Mirror` (`mirror.dfy`): the class `Destination`, updated in place. Its
  methods model the destination operations the script calls (`list_repos`,
  `list_aliases`, `get_manifest_and_response`, `push_blob`, `set_manifest`,
  `del_alias`). Its looping methods model the script's loops, and each is
  proved to reach the state the matching `Registry` function describes.

In these places the script does something other than one might expect, and
the model follows the script:

- Any `HTTPError` on the destination manifest read counts as "absent", not
  only a 404 (line 55).
- The branch for a username without a password, or the reverse (lines 16-17),
  cannot be reached. Only a failed match is an error (lines 22-23).
- The prune pass also covers destination repositories the source does not
  have. Those lose every tag whose delete the destination accepts (lines
  85-92, 100-106).
- It goes over the destination repository list taken before the mirror pass
  (line 34).
- After a sync a destination tag need not hold the source's manifest. A
  readable destination manifest that already lists every source digest is
  kept with its own raw string. This covers layers in another order, extra
  layers, and a different raw string with the same digests (lines 59-70;
  `Registry.DriftKept`, `Scenarios.ReorderedNotRepublished`).
- A tag the destination lacks is not always written. When every blob of the
  source manifest is foreign there is nothing to push, so the manifest is not
  published either (lines 68-70; `Registry.AllForeignNeverWritten`).
- Nothing the script leaves uncaught is turned into a per-tag recovery. That
  covers a failing source manifest fetch and failing blob or manifest writes.

## Model

| member | source | states |
|---|---|---|
| `Manifests.IsForeign` | main.py:68 | a descriptor is foreign when it has a `urls` list that is not empty; `Diff.DropForeign` and `Diff.ToTransfer` state what this filters out |
| `Diff.HasDigest` | main.py:60-61 | some destination descriptor has the given digest; `Diff.MissingFrom` and `Diff.SelfTransferEmpty` state what it decides |
| `Diff.Transferable` | main.py:55-68 | a source descriptor is pushed when it is not foreign and the destination read failed or has no descriptor with its digest; `Diff.ToTransfer` and `Diff.NothingToTransferIff` are stated in its terms |
| `Diff.MissingFrom` | main.py:59-61 | the result is an order-preserving subsequence of the source descriptors, holding each one whose digest no destination descriptor has, as often as the source does, and no other |
| `Diff.DropForeign` | main.py:68 | the result is an order-preserving subsequence holding exactly the descriptors with no `urls` or an empty `urls`, with their multiplicity |
| `Diff.ToTransfer` | main.py:49-68 | the pushed descriptors are a subsequence of config-then-layers holding exactly the non-foreign ones with no digest match at the destination (every non-foreign one when the read failed); none is foreign |
| `Diff.NothingToTransferIff` | main.py:59-70 | nothing is pushed if and only if neither the config nor any layer is transferable |
| `Diff.SelfTransferEmpty` | main.py:59-61 | against a destination holding the source manifest itself, nothing is transferred |
| `Diff.UnreadableTransfersAllLocal` | main.py:55-56 | a failed destination read makes every non-foreign source descriptor missing |
| `Diff.MissingFromUnique` | main.py:59-61 | any order-preserving subsequence of the source descriptors with the multiplicities of the missing filter is the filter's result itself |
| `Diff.DropForeignUnique` | main.py:68 | any order-preserving subsequence with the multiplicities of the foreign-layer filter is that filter's result itself |
| `Diff.ToTransferUnique` | main.py:49-68 | the transfer list is the only order-preserving subsequence of config-then-layers with its multiplicities |
| `Manifests.Descriptors` | main.py:49 | the descriptor list is the config followed by the layers in order |
| `ConnectionString.AddressEnd` | main.py:10 | the lazy address group ends at the least position where `$` holds after newline-free characters, and fails only when there is none |
| `ConnectionString.SearchPassword` | main.py:10 | finds the least password end completing a split for a given username end, or proves there is none |
| `ConnectionString.SearchUsername` | main.py:10 | finds the credential split the backtracking matcher takes first, or proves there is none |
| `ConnectionString.RegexMatch` | main.py:10 | in a match, username and password take part together and are non-empty, and the address is non-empty; there is no match only when neither a split nor a bare address fits |
| `ConnectionString.AddressWithCredentials` | main.py:9-23 | fails exactly when the regular expression does not match, with the source's message; the one-sided credential error cannot happen |
| `ConnectionString.NewlineFreeFailsOnlyWhenEmpty` | main.py:10-23 | for a newline-free string, the only error is the empty string |
| `ConnectionString.ParsesCredentials` | main.py:10-15 | a newline-free `u:p@a` with `u` non-empty and free of ':', `p` non-empty and free of '@', and `a` non-empty gives credentials (u, p) and address a |
| `ConnectionString.ParsesBareAddress` | main.py:10-21 | a non-empty, newline-free string without '@' gives no credentials and the whole string as the address |
| `ConnectionString.OneSidedCredentialsAreAddress` | main.py:10-21 | a non-empty, newline-free string with no ':' after its first character, such as `user@host` or `:secret@host`, parses as a bare address with no credentials |
| `ConnectionString.ParseRendersBack` | main.py:10-21 | every successful parse renders back to the input string, up to one final newline |
| `ConnectionString.RenderParsesBack` | main.py:10-21 | a well-formed endpoint rendered as a connection string parses back to itself |
| `Registry.Read` | main.py:51-56 | the destination read gives the stored manifest of a tag that exists and is readable, and an HTTP error otherwise; `Mirror.Destination.GetManifest` is proved to agree with it |
| `Registry.Put` | main.py:79 | publishing sets repo:tag to the manifest, adds the repository if it was missing and leaves every other tag as it was |
| `Registry.TagSync` | main.py:47-79 | one tag's sync; `Registry.TagSyncUnchangedIff`, `Registry.TagSyncPublishes`, `Registry.TagSyncFrame`, `Registry.TagSyncEstablishes` and `Registry.TagSyncIdempotent` state its properties, and `Mirror.Destination.SyncTag` is proved to reach its state |
| `Registry.RepositorySync` | main.py:46-79 | the loop over one repository's source tags; its frame, growth, fixpoint and establishment lemmas below state its properties, and `Mirror.Destination.SyncTags` is proved to reach its state |
| `Registry.MirrorPass` | main.py:36-79 | the loop over the source's repositories, skipping the denied ones; the `Registry.MirrorPass*` lemmas state its properties, and `Mirror.Destination.Mirror` is proved to reach its state |
| `Registry.SourceTags` | main.py:85-92 | the tags the prune pass compares against: the source's list, or none when the repository is missing or denied at the source; used by `Registry.PrunePassDeletesExactly` and `Registry.PrunePassEmptiesSourceless` |
| `Registry.PrunedTags` | main.py:100-106 | one repository's tags after its prune: those the source lists or whose delete is rejected; `Mirror.Destination.PruneRepository` is proved to reach it |
| `Registry.PrunePass` | main.py:81-106 | the prune loop over the destination repositories; the `Registry.PrunePass*` lemmas state its properties, and `Mirror.Destination.Prune` is proved to reach its state |
| `Registry.RunPass` | main.py:31-106 | the mirror pass followed by the prune pass over the repositories listed before it; `Registry.RunPassLeavesOnlySurvivors` and `Registry.RunPassIdempotent` state its properties, and `Mirror.Destination.Run` is proved to reach its state |
| `Registry.TagSyncUnchangedIff` | main.py:63-70 | a tag's sync leaves the destination unchanged (no push, no publish) if and only if the filtered missing list is empty |
| `Registry.TagSyncPublishes` | main.py:47-79 | otherwise each missing digest is pushed in order and added to the blob set before the publish; the tag then holds the source manifest, raw string included |
| `Registry.TagSyncFrame` | main.py:71-79 | a tag's sync changes no other tag or repository; blobs and writes only accumulate |
| `Registry.TagSyncEstablishes` | main.py:59-79 | after a sync of a readable tag, another sync of it transfers nothing |
| `Registry.TagSyncIdempotent` | main.py:46-79 | repeating a readable tag's sync with the same source manifest pushes nothing and publishes nothing |
| `Registry.UnreadableTagRewritten` | main.py:51-79 | a tag whose destination read fails, and whose manifest has at least one non-foreign blob, has every non-foreign blob pushed and is republished, because it is handled as absent |
| `Registry.AllForeignNeverWritten` | main.py:68-70 | a manifest whose blobs are all foreign is never written, even to a tag the destination lacks: nothing is pushed and nothing is published |
| `Registry.DriftKept` | main.py:51-70 | a readable destination manifest that lists every source digest is left as it is, raw string included, and the tag is not republished |
| `Registry.TagSyncPreserves` | main.py:46-79 | a tag's sync keeps every other tag up to date, and the synced tag too if it is readable |
| `Registry.RepositorySyncFrame` | main.py:46-79 | a repository's tag loop changes only the tags it goes over |
| `Registry.RepositorySyncGrows` | main.py:46-79 | a repository's tag loop only adds that repository, blobs and writes |
| `Registry.RepositorySyncPreserves` | main.py:46-79 | a repository's tag loop keeps up-to-date tags up to date |
| `Registry.RepositorySyncEstablishes` | main.py:46-79 | after a repository's tag loop, each of its readable tags is up to date, whatever the unreadable ones do |
| `Registry.RepositorySyncFixpoint` | main.py:46-79 | a repository's tag loop over up-to-date tags changes nothing |
| `Registry.MirrorPassFrame` | main.py:36-79 | the mirror pass changes only tags the source lists in a repository it could list |
| `Registry.MirrorPassGrows` | main.py:36-79 | the mirror pass removes no repository, and blobs and writes only accumulate |
| `Registry.MirrorPassSkipsDenied` | main.py:40-44 | the tags of a repository whose source listing is denied are unchanged by the whole pass |
| `Registry.Listable` | main.py:40-44 | the repositories whose source listing is not denied, as an order-preserving subsequence of the list holding exactly those |
| `Registry.MirrorPassIgnoresDenied` | main.py:36-46 | a denied repository causes no change at all, blobs and writes included, and the pass goes on with the next repository: the pass equals that over the listable repositories alone |
| `Registry.MirrorPassPreserves` | main.py:36-79 | the mirror pass keeps a readable, up-to-date source tag up to date |
| `Registry.MirrorPassEstablishes` | main.py:36-79 | after the mirror pass every listed, readable source tag is up to date, whatever the unreadable ones do |
| `Registry.MirrorPassFixpoint` | main.py:36-79 | over a destination where every listed tag is up to date, the mirror pass changes nothing |
| `Registry.MirrorPassIdempotent` | main.py:36-79 | a second mirror pass over an unchanged source pushes no blob and publishes no manifest, provided the destination can read back every listed tag |
| `Registry.MirrorPassCreatesOnlyListed` | main.py:36-79 | a tag the mirror pass creates is one the source lists |
| `Registry.PrunePassDeletesExactly` | main.py:94-106 | a pruned repository loses exactly its tags that are not in the source's list and whose delete is not rejected; kept tags keep their manifest whatever its content |
| `Registry.PrunePassEmptiesSourceless` | main.py:85-92 | a repository missing at the source, or denied there, keeps only the tags whose delete is rejected |
| `Registry.PrunePassFrame` | main.py:94-98 | a repository denied at the destination, or not in the list, loses no tag; the prune pass writes no blob or manifest |
| `Registry.PrunePassFixpoint` | main.py:100-106 | when every tag would survive, the prune pass changes nothing |
| `Registry.PrunePassIdempotent` | main.py:81-106 | pruning twice is pruning once |
| `Registry.PrunePassKeepsMirrored` | main.py:81-106 | the prune pass keeps every listed source tag, so it keeps them up to date |
| `Registry.RunPassLeavesOnlySurvivors` | main.py:31-106 | after a run, every destination tag would survive another prune pass |
| `Registry.RunPassIdempotent` | main.py:31-106 | a second run over an unchanged source changes nothing, provided the destination can read back the listed tags |
| `Scenarios.OnlyNewLayerPushed` | main.py:59-68 | when the source manifest adds a layer with a new digest to the destination's config and layers, only that layer is pushed |
| `Scenarios.OnlyForeignMissingLeavesTag` | main.py:59-70 | when the only layer the destination lacks is foreign, the tag's sync leaves the destination exactly as it was |
| `Scenarios.NewTagPushedThenPublished` | main.py:51-79 | for a tag the destination lacks, the config and both layers are pushed in order, and then the manifest is published under the tag |
| `Scenarios.ReorderedNotRepublished` | main.py:59-70 | a destination manifest with the same layers in the other order keeps its own raw string, and nothing is pushed or published |
| `Scenarios.StaleTagPruned` | main.py:94-106 | a destination tag the source no longer lists is deleted, and the listed tag is kept |
| `Mirror.Destination.constructor` | main.py:33 | the destination starts from the given tags, blobs and faults, with no writes |
| `Mirror.Destination.ListRepositories` | main.py:34 | the destination's repository list is its set of repositories |
| `Mirror.Destination.ListTags` | main.py:94-98 | listing is denied exactly for unlistable repositories and otherwise gives the repository's tags |
| `Mirror.Destination.GetManifest` | main.py:51-55 | the read finds the stored manifest exactly when the tag exists and is readable, and is an HTTP error otherwise |
| `Mirror.Destination.PushBlob` | main.py:74-76 | adds the digest to the blob set and records the push; tags unchanged |
| `Mirror.Destination.SetManifest` | main.py:79 | stores the manifest under repo:tag, creating the repository if needed, and records the publish |
| `Mirror.Destination.DeleteTag` | main.py:103-106 | removes the tag unless the destination rejects it, in which case nothing changes |
| `Mirror.Destination.PushBlobs` | main.py:71-76 | pushes the missing digests in order: the blob set gains exactly them, the trace records them in order |
| `Mirror.Destination.SyncTag` | main.py:46-79 | returns the pushed digests and leaves the destination in the state `TagSync` gives |
| `Mirror.Destination.SyncTags` | main.py:46-79 | leaves the destination in the state `RepositorySync` gives |
| `Mirror.Destination.Mirror` | main.py:36-79 | leaves the destination in the state `MirrorPass` gives for the source's repository list |
| `Mirror.Destination.PruneRepository` | main.py:82-106 | replaces one repository's tags by the pruned ones, or leaves them when listing is denied |
| `Mirror.Destination.Prune` | main.py:81-106 | leaves the destination in the state `PrunePass` gives for the given repositories |
| `Mirror.Destination.Run` | main.py:31-106 | leaves the destination in the state `RunPass` gives: mirror, then prune over the repositories listed before mirroring |

## Left out

- Argument parsing and the module-level `parse_args` call (lines 26-29): command-line plumbing.
- `DXFBase` construction, the authentication callback and `tlsverify=False` (lines 14-15, 21): the model returns the address and the credentials instead.
- Bearer-token authentication, pagination and HTTP transport inside the `dxf` library. That code is not part of this model. Its calls are modelled as operations on the destination's maps and blob set.
- Blob bytes, `pull_blob` and digest verification (line 76): blobs are represented by their digest only.
- JSON parsing of manifests (lines 48, 53): a manifest is given with its parsed structure. Publishing stores the source manifest value, raw string and structure together.
- The `print` logging.
- Errors the script does not catch, which abort it. This covers the source manifest fetch (line 47), the blob pull and push, `set_manifest`, and `list_repos`. It also covers a `list_aliases` failure other than `DXFUnauthorizedError` (lines 41, 87, 95), a destination manifest read that fails with something other than `HTTPError` (lines 52-54), and a `del_alias` failure other than `HTTPError` (line 104). `Listing` and `DestinationFaults` only express the caught errors. `SourceRegistry.Valid` requires every listed source tag to be readable, and writes always succeed.
- Changes to the source during a run: the source is a fixed value.
- The order in which the prune pass visits destination repositories and tags: the model takes them as sets, in any order. The outcome does not depend on the order. The write trace records blob pushes and manifest publishes, not deletes.
- Blob storage per repository: the destination's blobs are one set of digests.
- `Registry.MirrorPassIdempotent`: holds only when the destination can read back every listed tag. When a read fails, the script pushes that tag again on every pass, unless all its blobs are foreign.
- `Registry.RunPassIdempotent`: holds only when the destination can read back every listed tag. When a read fails, the script pushes that tag again on every run, as `Registry.UnreadableTagRewritten` shows.
