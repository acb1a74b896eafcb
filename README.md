# s3_asset_deploy, modelled in Dafny

`s3_asset_deploy` deploys precompiled Rails assets to an S3 bucket. This
model covers its decision logic:

- **Fingerprints.** Every asset key carries a content fingerprint
  (`app-3e1f1b9c.css`). The pattern `\A(.*)-([[:alnum:]]+)((?:\.[[:alnum:]]+)+)\z`
  strips it and gives the asset's *logical name* (`app.css`). The
  `AssetHelper` module models this pattern, plus the `.map` override of the
  content-type lookup.
- **Assets and collectors.** `LocalAssets`, `RemoteAssets`,
  `LocalAssetCollectors` and `RemoteAssetCollectors` model the asset value
  objects and the collectors that list them. The collectors do:
  - projections that keep the listing order;
  - `to_h`, where the last entry wins;
  - an ordered `group_by`;
  - flattening of the bucket listing's pages.
- **Removal manifest.** `RemovalManifests` models the JSON document kept in
  the bucket as a class whose methods update its fields:
  - `load` fetches it at most once;
  - `[]=` and `delete` edit it only once it is loaded;
  - `save` writes it only when it is loaded and changed.
- **Manager.** `Manager` holds the two deploy steps:
  - `upload_assets` uploads the local assets the bucket lacks;
  - `clean_assets` deletes old versions.

  For each logical name, `clean_assets` sets aside the current local
  version. It sorts the other versions newest first and keeps them while
  they are younger than `age`, or, when a current version exists, while
  they are among the `count` newest. It deletes everything after the first
  version it does not keep.

The main results about `clean_assets`:

- A deleted key is a listed object at least `age` seconds old, and never a
  local asset (`CleanSparesLocalAssets`).
- Within one logical name, the deleted versions are exactly those the keep
  rule rejects, and they form a suffix of the newest-first order
  (`DeletedExactlyUnkept`, `DeletionIsASuffix`).
- With a current version, min(`count`, candidates) candidates survive
  (`NewestCountKept`, `OldVersionsCount`).
- These per-group results hold for every newest-first order of the
  candidates. `DoomedVersions`, `CleanSelection` and `CleanAssets` use
  the one order that `SortNewestFirst` fixes.
- Nothing is deleted while an upload is pending (`CleanSelection`).
- The removal manifest's own key, `s3-asset-deploy-removal-manifest.json`,
  has the fingerprint shape. `clean_assets` therefore takes a manifest
  stored in the bucket for a version of `s3-asset-deploy-removal.json`.
  When no local asset has that name and nothing is left to upload, the
  manifest is deleted once it is `age` old, whatever else the bucket holds
  (`ManifestKeyLogicalName`, `OldManifestIsCleaned`).
- A dry run returns the same list but sends no request (`CleanAssets`).

Modelling choices:

- The S3 client, the filesystem and the clock become inputs:
  - the bucket listing is a sequence of `(key, lastModified)` objects;
  - the fetched manifest is a `FetchResult`;
  - `File.file?` is the `isFile` predicate;
  - `Time.now` is the `now` parameter, in whole seconds.
- The requests a call would send are outputs:
  - `CleanAssets` returns them as `DeleteRequest` values;
  - `UploadAssets` returns them as `PutRequest` values;
  - the manifest appends them to a ghost request log.
- Ruby `Array#-`, `uniq`, `to_h` and `group_by` are defined once in
  `Enumerable`, together with lemmas about them.

## Model

| member | source | states |
|---|---|---|
| AssetHelper.SplitIsTheMatch | lib/s3_asset_deploy/asset_helper.rb:6-11 | the decomposition `Split` finds (text before the last hyphen, alphanumeric fingerprint up to the next dot, extensions to the end) is a match of the pattern, and every match is that decomposition, so the match is unique |
| AssetHelper.SplitFailsWithoutMatch | lib/s3_asset_deploy/asset_helper.rb:9-10 | `Split` finds nothing exactly when no decomposition matches the pattern |
| AssetHelper.LastHyphenOfMatch | lib/s3_asset_deploy/asset_helper.rb:6 | the hyphen of any match is the last hyphen of the key, because fingerprint and extensions hold no hyphen |
| AssetHelper.FirstDotOfTail | lib/s3_asset_deploy/asset_helper.rb:6 | in a match the extensions begin at the first dot after the hyphen, so the fingerprint is the longest alphanumeric run there |
| AssetHelper.RemoveFingerprint | lib/s3_asset_deploy/asset_helper.rb:8-12 | for any match of the pattern, `remove_fingerprint` answers capture group 1 followed by capture group 3 |
| AssetHelper.RemoveFingerprintWithoutMatch | lib/s3_asset_deploy/asset_helper.rb:9-10 | a key the pattern does not match is returned unchanged |
| AssetHelper.RemoveFingerprintDropsLastSegment | lib/s3_asset_deploy/asset_helper.rb:6-11 | only the last hyphen segment is removed: everything before the last hyphen is kept (earlier hyphens and tildes included), and the result is at least two characters shorter than the key |
| AssetHelper.RemoveFingerprintWithoutHyphen | lib/s3_asset_deploy/asset_helper.rb:9-10 | a key without a hyphen never matches and is returned unchanged |
| AssetHelper.RemoveInsertedFingerprint | lib/s3_asset_deploy/asset_helper.rb:6-11 | round trip: inserting `-<fingerprint>` before the extensions of a logical name and removing the fingerprint again gives the logical name back |
| AssetHelper.JsonExactlyForSourceMaps | lib/s3_asset_deploy/asset_helper.rb:14-16 | the JSON override applies if and only if the file name of the path ends in `.map` after a stem with some character other than a dot, because `File.extname` skips leading dots (`.x.map` qualifies, `.map` and `..map` do not); the type is then `application/json` |
| AssetHelper.SourceMapIsJson | lib/s3_asset_deploy/asset_helper.rb:14-16 | every file named `<stem>.map`, in any directory, gets `application/json`, provided the stem holds some character other than a dot |
| AssetHelper.ChunkExampleLogicalName | spec/asset_helper_spec.rb:5-7 | `packs/js/0-3e1f1b9c14ca587bae85.chunk.js` becomes `packs/js/0.chunk.js`, so both extensions are kept |
| AssetHelper.BundleExampleLogicalName | spec/asset_helper_spec.rb:9-11 | the hyphens inside `pdf-post-previews-bundle` survive fingerprint removal |
| AssetHelper.SourceMapExampleLogicalName | spec/asset_helper_spec.rb:13-15 | a base holding a tilde keeps it, and `.js.map` is kept whole |
| AssetHelper.UnfingerprintedExample | spec/manager_spec.rb:159-162 | `packs/js/0.chunk.js` has no fingerprint and is its own logical name |
| LocalAssets.LocalAsset.OriginalPath | lib/s3_asset_deploy/local_asset.rb:13-20 | the logical name comes from the injected callable when one was given, otherwise from the default fingerprint pattern |
| LocalAssets.DefaultOriginalPath | lib/s3_asset_deploy/local_asset.rb:13-19 | with the default pattern, a matching path loses exactly its fingerprint segment and a non-matching path is its own logical name |
| LocalAssets.SameAsIsPathEquality | lib/s3_asset_deploy/local_asset.rb:30-36 | `==` holds exactly when the paths are equal, whatever the callables are; it is an equivalence and agrees with comparing `to_s` |
| RemoteAssets.AccessorsReadTheObject | lib/s3_asset_deploy/remote_asset.rb:12-30 | `path` and `to_s` are the object key and `last_modified` is its timestamp, both unchanged; the logical name depends on the key alone |
| RemoteAssets.SameAsIgnoresTimestamp | lib/s3_asset_deploy/remote_asset.rb:24-26 | `==` holds exactly when the keys are equal, even when the timestamps differ; equal assets share their logical name |
| RemoteAssets.OriginalPathExample | spec/remote_asset_spec.rb:4-12 | the listed key `packs/js/0-3e1f1b9c14ca587bae85.chunk.js` has logical name `packs/js/0.chunk.js` |
| LocalAssetCollectors.LocalAssetCollector.AssetPaths | lib/s3_asset_deploy/local_asset_collector.rb:12-14 | same length and order as the assets; entry i is the path of asset i |
| LocalAssetCollectors.LocalAssetCollector.OriginalAssetPaths | lib/s3_asset_deploy/local_asset_collector.rb:22-24 | same length and order as the assets; entry i is the logical name of asset i |
| LocalAssetCollectors.LocalAssetCollector.AssetMap | lib/s3_asset_deploy/local_asset_collector.rb:16-20 | the keys are exactly the logical names, and each maps to the last asset listed with that name |
| LocalAssetCollectors.LocalAssetCollector.FullFilePath | lib/s3_asset_deploy/local_asset_collector.rb:26-28 | the base collector resolves every path to itself |
| LocalAssetCollectors.BaseCollectorIsEmpty | lib/s3_asset_deploy/local_asset_collector.rb:8-24 | the base collector lists no asset, so its paths, logical names and map are all empty |
| LocalAssetCollectors.AssetMapSize | lib/s3_asset_deploy/local_asset_collector.rb:16-20 | the map has at most one entry per asset, and exactly one per asset exactly when no two assets share a logical name |
| LocalAssetCollectors.AssetMapFindsEveryAsset | lib/s3_asset_deploy/local_asset_collector.rb:16-20 | when the logical names are distinct, every asset is found under its own logical name |
| RemoteAssetCollectors.ListingHoldsEveryPage | lib/s3_asset_deploy/remote_asset_collector.rb:21-25 | an object is in the flattened listing exactly when some page holds it, and the listing is as long as all pages together |
| RemoteAssetCollectors.Assets | lib/s3_asset_deploy/remote_asset_collector.rb:21-25 | the loop over the pages returns each object of the concatenated pages, wrapped, in page order |
| RemoteAssetCollectors.AssetPaths | lib/s3_asset_deploy/remote_asset_collector.rb:27-29 | same length and order as the assets; entry i is the key of asset i |
| RemoteAssetCollectors.GroupedAssetsPartition | lib/s3_asset_deploy/remote_asset_collector.rb:31-33 | each asset is in the group of its logical name and in no other; groups are non-empty and keyed by their members' logical name; no key has two groups |
| RemoteAssetCollectors.GroupedAssetsCount | lib/s3_asset_deploy/remote_asset_collector.rb:31-33 | the group sizes add up to the number of assets |
| RemoteAssetCollectors.GroupedAssetsOrder | lib/s3_asset_deploy/remote_asset_collector.rb:31-33 | groups come in the order their logical names first occur, and each group keeps listing order |
| RemovalManifests.OrderedHash.Put | lib/s3_asset_deploy/removal_manifest.rb:73 | `hash[key] = value` sets the key and leaves every other key's value alone; a new key goes last in key order, and an existing key keeps its place |
| RemovalManifests.OrderedHash.Remove | lib/s3_asset_deploy/removal_manifest.rb:63 | `hash.delete(key)` removes the key, present or not, and leaves every other key's value and relative order alone |
| RemovalManifests.FromPairs | lib/s3_asset_deploy/removal_manifest.rb:25 | the fetched document becomes a hash whose keys are its member names in first-occurrence order, and whose values follow last-wins |
| RemovalManifests.RemovalManifest.constructor | lib/s3_asset_deploy/removal_manifest.rb:8-17 | a new manifest is for the given bucket and is not loaded, not changed and empty |
| RemovalManifests.RemovalManifest.Load | lib/s3_asset_deploy/removal_manifest.rb:23-30 | the first load fetches once and installs the fetched document, or an empty hash when the object is missing, then marks loaded; later loads fetch nothing and keep in-memory edits; it always answers true and never touches the changed flag |
| RemovalManifests.RemovalManifest.IsLoaded | lib/s3_asset_deploy/removal_manifest.rb:32-34 | answers the loaded flag; a manifest that is not loaded is unchanged and has no keys |
| RemovalManifests.RemovalManifest.IsChanged | lib/s3_asset_deploy/removal_manifest.rb:36-38 | answers the changed flag; only a loaded manifest can have changed |
| RemovalManifests.RemovalManifest.Save | lib/s3_asset_deploy/removal_manifest.rb:40-54 | answers false with no write before loading; true with no write when unchanged; otherwise exactly one write of the whole hash under `PATH` as `application/json`, then clears changed; the hash is never altered |
| RemovalManifests.RemovalManifest.Keys | lib/s3_asset_deploy/removal_manifest.rb:56-58 | the keys of the hash, each once, in insertion order |
| RemovalManifests.RemovalManifest.Delete | lib/s3_asset_deploy/removal_manifest.rb:60-64 | does nothing before loading; afterwards removes the key, present or not, marks changed and answers the old value or nil; sends no request |
| RemovalManifests.RemovalManifest.Get | lib/s3_asset_deploy/removal_manifest.rb:66-68 | answers the stored value, or nil for a missing key |
| RemovalManifests.RemovalManifest.Store | lib/s3_asset_deploy/removal_manifest.rb:70-74 | does nothing before loading; afterwards sets the key, marks changed and leaves every other key alone; sends no request |
| RemovalManifests.RemovalManifest.ToH | lib/s3_asset_deploy/removal_manifest.rb:76-78 | the hash itself, as a value (see Left out) |
| RemovalManifests.LoadEditSaveScenario | spec/removal_manifest_spec.rb:37-64 | loading installs the fetched document's keys in order; after an edit, a second load fetches nothing and keeps the edit; the first save writes the edited hash once and the second writes nothing, so exactly one fetch and one write are sent |
| Manager.RemoveFingerprint | lib/s3_asset_deploy/manager.rb:158-167 | the manager's copy of the pattern gives the same logical name as `AssetHelper.remove_fingerprint`, and logs a warning naming the key exactly when the pattern does not match, returning the key unchanged |
| Manager.NoFingerprintWarningExample | spec/manager_spec.rb:159-162 | `packs/js/0.chunk.js` comes back unchanged, with the warning `WARNING: No fingerprint found for packs/js/0.chunk.js!` |
| Manager.RemoteAssetPaths | lib/s3_asset_deploy/manager.rb:31-33 | same length and order as the listing; entry i is the key of object i |
| Manager.LocalLogicalAssetPaths | lib/s3_asset_deploy/manager.rb:57-59 | same length and order as the local paths; entry i is the logical name of path i |
| Manager.VerifyNoDuplicateAssets | lib/s3_asset_deploy/manager.rb:61-65 | raises `DuplicateAssetsError` exactly when two local paths share a logical name |
| Manager.DuplicateCheckCountsLogicalNames | lib/s3_asset_deploy/manager.rb:61-65 | the check fails exactly when `uniq` shrinks the logical names below the number of paths, and a path listed twice always fails it |
| Manager.LocalAssetMap | lib/s3_asset_deploy/manager.rb:49-55 | raises the duplicate error when the check fails; otherwise it has one entry per local path, keyed by exactly the logical names, each mapping to its own path |
| Manager.LocalAssetsToUpload | lib/s3_asset_deploy/manager.rb:88-90 | holds exactly the local paths that are not listed keys, and keeps local order |
| Manager.UploadDiffExample | spec/manager_spec.rb:27-39 | with one of three local paths already listed, the other two are to be uploaded, in local order |
| Manager.GroupedRemoteAssetsMembers | lib/s3_asset_deploy/manager.rb:35-39 | a group holds exactly the listed versions whose logical name is the group's key |
| Manager.GroupedRemoteAssetsCover | lib/s3_asset_deploy/manager.rb:35-39 | every listed object has a group, the one of its logical name |
| Manager.Candidates | lib/s3_asset_deploy/manager.rb:118-120 | the `reject` leaves exactly the versions whose key is not the current local path, and never more versions than it was given |
| Manager.CandidatesKeepOrder | lib/s3_asset_deploy/manager.rb:118-120 | the `reject` keeps the listing order: its answer is a subsequence of the versions |
| Manager.CandidatesCount | lib/s3_asset_deploy/manager.rb:118-120 | the `reject` keeps every other version as many times as it is listed and drops every copy of the current one |
| Manager.SortNewestFirst | lib/s3_asset_deploy/manager.rb:121-123 | `sort_by(...).reverse` answers a permutation of the versions that is newest first |
| Manager.DropWhileKept | lib/s3_asset_deploy/manager.rb:123-134 | `drop_while` stops at the first position the keep rule rejects: every position before it is kept, and the one it stops at is not |
| Manager.KeepIsMonotone | lib/s3_asset_deploy/manager.rb:124-134 | on a newest-first list, a version the rule keeps implies that every newer one is kept too, because age and index only grow |
| Manager.DeletedExactlyUnkept | lib/s3_asset_deploy/manager.rb:121-137 | on a newest-first list, a position is deleted if and only if the keep rule rejects it |
| Manager.DroppedAreOldCandidates | lib/s3_asset_deploy/manager.rb:115-137 | for every newest-first order of the candidates, every deleted version was listed in its group, is not the current local path, and is at least `age` seconds old |
| Manager.DoomedVersions | lib/s3_asset_deploy/manager.rb:115-137 | the versions one group loses are listed versions of it, none the current local path, each at least `age` old, and no more than the candidates |
| Manager.DeletionIsASuffix | lib/s3_asset_deploy/manager.rb:121-137 | for every newest-first order of the candidates, once a candidate is deleted, every strictly older candidate is deleted too |
| Manager.NewestCountKept | lib/s3_asset_deploy/manager.rb:129-134 | for every newest-first order, with a current version, at most `candidates - count` versions of a group are deleted, so at least min(`count`, candidates) survive |
| Manager.OldVersionsCount | lib/s3_asset_deploy/manager.rb:121-134 | for every newest-first order, when every version is at least `age` old, exactly the candidates beyond the `count` newest are deleted; without a current version, all of them are |
| Manager.KeepUpToCountExample | spec/manager_spec.rb:91-110 | the `assets/file-1` group of that test: four old versions, the newest of them current, with `count: 2`, lose only the oldest |
| Manager.CleanSelection | lib/s3_asset_deploy/manager.rb:104-150 | `clean_assets` raises `DuplicateAssetsError` exactly when two local paths share a logical name, and answers `[]` while some local path is missing from the bucket |
| Manager.DeletionsComeFromGroups | lib/s3_asset_deploy/manager.rb:115-138 | every collected key is the key of a version deleted from some group |
| Manager.CleanSparesLocalAssets | lib/s3_asset_deploy/manager.rb:104-150 | every key `clean_assets` answers is a listed key with a version at least `age` old, and is never one of the local assets |
| Manager.LoneOldObjectIsCleaned | lib/s3_asset_deploy/manager.rb:104-137 | with no local assets, a bucket holding one object at least `age` old has it deleted, since its group has no current local path |
| Manager.ManifestKeyLogicalName | lib/s3_asset_deploy/removal_manifest.rb:6 | the removal manifest's key has the fingerprint shape, with fingerprint `manifest`, so its logical name is `s3-asset-deploy-removal.json` |
| Manager.ManifestKeyNoWarning | lib/s3_asset_deploy/manager.rb:158-167 | the manager's `remove_fingerprint` logs no warning for the removal manifest's key |
| Manager.OldManifestIsCleaned | lib/s3_asset_deploy/manager.rb:104-137 | for any local paths and bucket listing: when the listing holds the removal manifest at least `age` old, no local path has the logical name `s3-asset-deploy-removal.json`, there is no duplicate and nothing is left to upload, `clean_assets` deletes the manifest |
| Manager.OldUnclaimedObjectIsCleaned | lib/s3_asset_deploy/manager.rb:104-137 | a listed object at least `age` old whose logical name no local path has is among the keys `clean_assets` deletes, once nothing is left to upload |
| Manager.OldVersionDoomedWithoutCurrent | lib/s3_asset_deploy/manager.rb:124-131 | in a group without a current local path, every version at least `age` old is deleted |
| Manager.GroupDeletionsInDeletions | lib/s3_asset_deploy/manager.rb:115-137 | the keys deleted for any one group are among the keys collected over all groups |
| Manager.CollectDeletions | lib/s3_asset_deploy/manager.rb:115-138 | the loop over the groups collects, group after group, the keys of each group's deleted versions |
| Manager.AppendKeys | lib/s3_asset_deploy/manager.rb:135-137 | the inner `each` appends the key of every dropped version, in order, after what was collected before |
| Manager.CleanAssets | lib/s3_asset_deploy/manager.rb:104-150 | answers the duplicate error, `[]` while uploads are pending, or every group's deletions; sends exactly one delete covering all answered keys when the list is non-empty and this is not a dry run, and none otherwise; the answer does not depend on `dry_run` |
| Manager.UploadRequest | lib/s3_asset_deploy/manager.rb:72-86 | the upload goes to the deployer's bucket under the asset's own path, publicly readable and cacheable for a year, with the content type of the `.map` override |
| Manager.UploadsAreMissingFiles | lib/s3_asset_deploy/manager.rb:92-100 | every upload is to the deployer's bucket, for a local path whose file exists and which the bucket lacks |
| Manager.UploadAssets | lib/s3_asset_deploy/manager.rb:92-100 | raises the duplicate error, otherwise answers the paths to upload; sends one upload per such path whose file exists, in order, and none on a dry run |
| Manager.UploadEach | lib/s3_asset_deploy/manager.rb:95-99 | the loop skips a path whose file is missing and otherwise adds its upload unless this is a dry run |

## Left out

- S3 transport: the client objects, `list_objects_v2`, `get_object`, `put_object` and `delete_objects` are not modelled. Listing pages and the fetched manifest are inputs. Requests are returned as values, or logged in a ghost field for the removal manifest. No request is ever sent.
- `JSON.parse` and `to_json` (lib/s3_asset_deploy/removal_manifest.rb:44-49, :96): a fetched document is its list of string members. Manifest values are strings, as the tests store them. A document that is not a JSON object, and errors other than a missing key, are not modelled.
- The file body of an upload (`File.open`, lib/s3_asset_deploy/manager.rb:73-85) is not modelled. `File.file?` is the `isFile` predicate, which is an input.
- `full_path` (lib/s3_asset_deploy/local_asset.rb:22-24) reads `ENV["PWD"]` and the filesystem, so it is not modelled.
- The Rails collector and the Rails local asset (Sprockets and Webpacker discovery) are not part of this model. The local path list of the manager is an input, because no collector shown defines `local_asset_paths`.
- AssetHelper.MimeTypeForPath: only the `.map` override is modelled. `None` stands for the answer of the `MIME::Types` table, which is not part of this model. Manager.UploadRequest therefore carries `None` where the source would send that table's type, or `""` for `nil.to_s`.
- `mime_type` of a local asset (lib/s3_asset_deploy/local_asset.rb:26-28) is not modelled apart from that override.
- Logging: messages go nowhere. The one exception is the warning of `Manager#remove_fingerprint`, which is part of its answer.
- `sync` and its hook block (lib/s3_asset_deploy/manager.rb:152-156) are not modelled. They only chain `upload_assets` and `clean_assets`.
- `inspect`, `to_s` of the collectors and of the manifest, and `bucket_name` readers are not modelled.
- Manager.CleanAssets: times are integer seconds, and there is one `now` per call, where Ruby reads the clock again for every version. Each call also sees one snapshot of the bucket listing, where the source lists the bucket again on every `remote_assets` call.
- Manager.SortNewestFirst: Ruby's `sort_by` is not stable, so versions with equal timestamps may come in any order. The model fixes one newest-first order, `SortNewestFirst`, which `DoomedVersions`, `CleanSelection` and `CleanAssets` use. `DeletedExactlyUnkept`, `KeepIsMonotone`, `DroppedAreOldCandidates`, `DeletionIsASuffix`, `NewestCountKept` and `OldVersionsCount` are stated for every newest-first order of the candidates. Nothing is proved about which of two equal-time versions is deleted. `KeepUpToCountExample` has distinct times, so its order is the only one.
- RemovalManifests.RemovalManifest.ToH: the model returns a copy of the hash, where Ruby's `to_h` hands out the manifest's own `Hash`. Edits made through that `Hash`, or to the string values that `[]` answers, are not modelled. Such edits would bypass the `loaded?` guards and leave `changed` unset. The facts that an unloaded manifest is empty and unchanged, and that every edit marks it changed (`Valid`, `IsLoaded`, `IsChanged`, `Store`, `Delete`), assume no caller edits the manifest that way.
- `[[:alnum:]]` is read as the ASCII letters and digits. Non-ASCII letters are not treated as alphanumeric.
- The `@original_path ||=` memo of both asset classes is a function of the path, so repeated calls agree by construction.
- The `clean_assets` and `upload_assets` loops are methods of their own: `CollectDeletions`, `AppendKeys` and `UploadEach`.
- Behaviour that the repository's tests expect but the code does not have is not modelled:
  - object tagging and a `removed_age:` option of `clean_assets`;
  - a `remove_fingerprint:` option of `RemoteAsset`;
  - filtering the manifest file out of the remote listing.
- Manager.KeepUpToCountExample: only the `assets/file-1` group of the "keep old versions up to count" test is instantiated. The other two groups of that test and its concatenation over groups are not instantiated with the test's literal keys. `OldUnclaimedObjectIsCleaned`, `DeletionsComeFromGroups` and `CollectDeletions` cover those steps for every listing.
