/**
 * `S3AssetDeploy::Manager`: decides which local assets to upload and
 * which old remote versions to delete.
 *
 * The local asset paths and the bucket listing are inputs (one listing
 * serves every step of a call), the clock is the `now` parameter in whole
 * seconds, and the S3 requests a call would send are returned as request
 * values instead of being sent.
 */
module Manager {
  import opened Wrappers
  import opened Enumerable
  import AssetHelper
  import opened RemoteAssets
  import RemovalManifests

  /** `Manager::DuplicateAssetsError`. */
  datatype Error = DuplicateAssetsError

  // ---------------------------------------------------------------------
  // Fingerprints

  /** What `remove_fingerprint` answers, with the warning it logs. */
  datatype Stripped = Stripped(logicalPath: string, warning: Option<string>)

  /** `remove_fingerprint`: the manager's own copy of the fingerprint
      pattern. A key the pattern does not match is answered unchanged and
      a warning naming it is logged. */
  function RemoveFingerprint(assetPath: string): (r: Stripped)
    ensures r.logicalPath == AssetHelper.RemoveFingerprint(assetPath)
    ensures r.warning.Some? <==> forall p :: !AssetHelper.Matches(assetPath, p)
    ensures r.warning.Some? ==>
      r.logicalPath == assetPath && r.warning.value == "WARNING: No fingerprint found for " + assetPath + "!"
  {
    AssetHelper.SplitFailsWithoutMatch(assetPath);
    match AssetHelper.Split(assetPath)
    case None => Stripped(assetPath, Some("WARNING: No fingerprint found for " + assetPath + "!"))
    case Some(m) => Stripped(m.base + m.extensions, None)
  }

  /** The logical name of a key, the first half of what
      `remove_fingerprint` answers (see the first ensures of
      `RemoveFingerprint`). */
  function LogicalPath(assetPath: string): string
  {
    AssetHelper.RemoveFingerprint(assetPath)
  }

  /** `spec/manager_spec.rb`: an unfingerprinted key comes back unchanged,
      with a warning. */
  lemma NoFingerprintWarningExample()
    ensures RemoveFingerprint("packs/js/0.chunk.js")
      == Stripped("packs/js/0.chunk.js", Some("WARNING: No fingerprint found for " + "packs/js/0.chunk.js" + "!"))
  {
    AssetHelper.RemoveFingerprintWithoutHyphen("packs/js/0.chunk.js");
  }

  // ---------------------------------------------------------------------
  // Local and remote path lists

  function ObjectKey(o: S3Object): string
  {
    o.key
  }

  /** `remote_asset_paths`: the listed keys, in listing order. */
  function RemoteAssetPaths(remote: seq<S3Object>): (r: seq<string>)
    ensures |r| == |remote|
    ensures forall i :: 0 <= i < |remote| ==> r[i] == remote[i].key
  {
    Map(ObjectKey, remote)
  }

  /** `local_logical_asset_paths`: the logical names of the local paths,
      in order. */
  function LocalLogicalAssetPaths(local: seq<string>): (r: seq<string>)
    ensures |r| == |local|
    ensures forall i :: 0 <= i < |local| ==> r[i] == AssetHelper.RemoveFingerprint(local[i])
  {
    Map(LogicalPath, local)
  }

  /** `verify_no_duplicate_assets!`: raises exactly when two local paths
      share a logical name, including one path listed twice. */
  function VerifyNoDuplicateAssets(local: seq<string>): (r: Outcome<Error>)
    ensures r.Fail? <==> !Distinct(LocalLogicalAssetPaths(local))
    ensures r.Fail? ==> r.error == DuplicateAssetsError
  {
    UniqLength(LocalLogicalAssetPaths(local));
    if |Uniq(LocalLogicalAssetPaths(local))| != |local| then Fail(DuplicateAssetsError) else Pass
  }

  /** The check fails exactly when `uniq` shrinks the logical names, and
      a path listed twice always fails it. */
  lemma DuplicateCheckCountsLogicalNames(local: seq<string>)
    ensures VerifyNoDuplicateAssets(local).Fail? <==> |Uniq(LocalLogicalAssetPaths(local))| < |local|
    ensures (exists i, j :: 0 <= i < j < |local| && local[i] == local[j]) ==> VerifyNoDuplicateAssets(local).Fail?
  {
    UniqLength(LocalLogicalAssetPaths(local));
    if exists i, j :: 0 <= i < j < |local| && local[i] == local[j] {
      var i, j :| 0 <= i < j < |local| && local[i] == local[j];
      assert LocalLogicalAssetPaths(local)[i] == LocalLogicalAssetPaths(local)[j];
    }
  }

  /** The `[logical name, path]` pairs `local_asset_map` hands to `to_h`. */
  function LocalPair(assetPath: string): (string, string)
  {
    (LogicalPath(assetPath), assetPath)
  }

  /** The keys of the pairs are the logical names. */
  lemma LocalPairKeys(local: seq<string>)
    ensures Map(PairKey, Map(LocalPair, local)) == LocalLogicalAssetPaths(local)
  {
  }

  /** Distinct logical names make the pair keys distinct. */
  lemma LocalPairsHaveDistinctKeys(local: seq<string>)
    requires Distinct(LocalLogicalAssetPaths(local))
    ensures forall i, j :: 0 <= i < j < |local| ==> Map(LocalPair, local)[i].0 != Map(LocalPair, local)[j].0
  {
  }

  /** `local_asset_map`: runs the duplicate check, then maps each
      logical name to its local path. */
  function LocalAssetMap(local: seq<string>): (r: Result<map<string, string>, Error>)
    ensures r.Failure? <==> VerifyNoDuplicateAssets(local).Fail?
    ensures r.Failure? ==> r.error == DuplicateAssetsError
    ensures r.Success? ==> |r.value| == |local|
    ensures r.Success? ==> forall k :: k in r.value <==> k in LocalLogicalAssetPaths(local)
    ensures r.Success? ==> forall i :: 0 <= i < |local| ==>
      AssetHelper.RemoveFingerprint(local[i]) in r.value && r.value[AssetHelper.RemoveFingerprint(local[i])] == local[i]
  {
    match VerifyNoDuplicateAssets(local)
    case Fail(e) => Failure(e)
    case Pass =>
      LocalPairKeys(local);
      ToHSize(Map(LocalPair, local));
      LocalPairsHaveDistinctKeys(local);
      ToHOfDistinctKeys(Map(LocalPair, local));
      Success(ToH(Map(LocalPair, local)))
  }

  /** `local_assets_to_upload`: Ruby `local - remote_keys`, the local
      paths not present in the bucket, in local order. */
  function LocalAssetsToUpload(local: seq<string>, remote: seq<S3Object>): (r: seq<string>)
    ensures forall p :: p in r <==> p in local && p !in RemoteAssetPaths(remote)
    ensures IsSubsequence(r, local)
  {
    Difference(local, RemoteAssetPaths(remote))
  }

  /** `spec/manager_spec.rb`: with one of three local assets already in
      the bucket, the other two are to be uploaded, in local order. */
  lemma UploadDiffExample(a: string, b: string, c: string, lastModified: int)
    requires a != b && a != c
    ensures LocalAssetsToUpload([a, b, c], [S3Object(a, lastModified)]) == [b, c]
  {
    assert RemoteAssetPaths([S3Object(a, lastModified)]) == [a];
    RemoveFirstOfThree(a, b, c);
  }

  /** `Array#-` removing the only element. */
  lemma RemoveOnlyElement<T(!new)>(a: T)
    ensures Difference([a], [a]) == []
  {
    DifferenceSnoc([], [a], a);
    assert [] + [a] == [a];
  }

  /** `Array#-` on two elements when only the first is removed. */
  lemma RemoveFirstOfTwo<T(!new)>(a: T, b: T)
    requires a != b
    ensures Difference([a, b], [a]) == [b]
  {
    RemoveOnlyElement(a);
    DifferenceSnoc([a], [a], b);
    assert [a] + [b] == [a, b];
  }

  /** `Array#-` on three elements when only the first is removed. */
  lemma RemoveFirstOfThree<T(!new)>(a: T, b: T, c: T)
    requires a != b && a != c
    ensures Difference([a, b, c], [a]) == [b, c]
  {
    RemoveFirstOfTwo(a, b);
    DifferenceSnoc([a, b], [a], c);
    assert [a, b] + [c] == [a, b, c];
  }

  // ---------------------------------------------------------------------
  // Grouping the bucket listing

  /** The `OpenStruct` `grouped_remote_assets` builds per listed object. */
  datatype Version = Version(logicalPath: string, asset: S3Object)

  function ToVersion(o: S3Object): Version
  {
    Version(LogicalPath(o.key), o)
  }

  function VersionPath(v: Version): string
  {
    v.logicalPath
  }

  function VersionKey(v: Version): string
  {
    v.asset.key
  }

  /** `grouped_remote_assets`: the listing grouped by logical name. */
  function GroupedRemoteAssets(remote: seq<S3Object>): seq<(string, seq<Version>)>
  {
    GroupBy(Map(ToVersion, remote), VersionPath)
  }

  /** A group holds exactly the listed versions with its logical name. */
  lemma GroupedRemoteAssetsMembers(remote: seq<S3Object>)
    ensures var gs := GroupedRemoteAssets(remote);
      forall i, v :: 0 <= i < |gs| ==> (v in gs[i].1 <==> v in Map(ToVersion, remote) && v.logicalPath == gs[i].0)
  {
    var gs, vs := GroupedRemoteAssets(remote), Map(ToVersion, remote);
    assert gs == GroupBy(vs, VersionPath);
    VersionGroupsMembers(vs);
  }

  /** `group_by(&:logical_path)` on any list of versions. */
  lemma VersionGroupsMembers(vs: seq<Version>)
    ensures var gs := GroupBy(vs, VersionPath);
      forall i, v :: 0 <= i < |gs| ==> (v in gs[i].1 <==> v in vs && v.logicalPath == gs[i].0)
  {
    var gs := GroupBy(vs, VersionPath);
    forall i, v | 0 <= i < |gs| ensures v in gs[i].1 <==> v in vs && v.logicalPath == gs[i].0 {
      GroupByMember(vs, VersionPath, i, v);
      assert VersionPath(v) == v.logicalPath;
    }
  }

  /** Every listed object has a group: the one of its logical name. */
  lemma GroupedRemoteAssetsCover(remote: seq<S3Object>)
    ensures forall o :: o in remote ==> LogicalPath(o.key) in Map(GroupKey, GroupedRemoteAssets(remote))
  {
    var gs, vs := GroupedRemoteAssets(remote), Map(ToVersion, remote);
    GroupByKeys(vs, VersionPath);
    forall o | o in remote ensures LogicalPath(o.key) in Map(GroupKey, gs) {
      var n :| 0 <= n < |remote| && remote[n] == o;
      assert vs[n] == ToVersion(o) && vs[n] in vs;
      assert VersionPath(vs[n]) in Map(GroupKey, gs);
    }
  }

  // ---------------------------------------------------------------------
  // The retention rule of `clean_assets`

  /** The `count:` and `age:` options and the clock. */
  datatype Retention = Retention(count: int, age: int, now: int)

  /** `[0, Time.now - last_modified].max`, in whole seconds. */
  function VersionAge(rule: Retention, v: Version): nat
  {
    if rule.now - v.asset.lastModified > 0 then rule.now - v.asset.lastModified else 0
  }

  /** The block given to `drop_while`: keep a young version, and while a
      current version exists also the first `count` by position. */
  predicate Keep(rule: Retention, current: Option<string>, v: Version, index: int)
  {
    if current.None? then VersionAge(rule, v) < rule.age
    else VersionAge(rule, v) < rule.age || index < rule.count
  }

  /** `versions.reject { key == current }`: the candidates for deletion. */
  function Candidates(versions: seq<Version>, current: Option<string>): (r: seq<Version>)
    ensures forall v :: v in r <==> v in versions && Some(v.asset.key) != current
    ensures |r| <= |versions|
  {
    if versions == [] then []
    else
      var init, last := versions[..|versions| - 1], versions[|versions| - 1];
      assert versions == init + [last];
      if Some(last.asset.key) == current then Candidates(init, current)
      else Candidates(init, current) + [last]
  }

  /** Newest first: modification times never increase along the list. */
  ghost predicate NewestFirst(vs: seq<Version>)
  {
    forall i, j :: 0 <= i < j < |vs| ==> vs[i].asset.lastModified >= vs[j].asset.lastModified
  }

  /** Places `v` in a newest-first list. */
  function InsertNewestFirst(v: Version, sorted: seq<Version>): (r: seq<Version>)
    requires NewestFirst(sorted)
    ensures NewestFirst(r)
    ensures multiset(r) == multiset(sorted) + multiset{v}
  {
    if sorted == [] || sorted[0].asset.lastModified <= v.asset.lastModified then
      NewestFirstCons(v, sorted);
      [v] + sorted
    else
      var rest := InsertNewestFirst(v, sorted[1..]);
      assert sorted == [sorted[0]] + sorted[1..];
      NoNewerThanHead(v, sorted, rest);
      NewestFirstCons(sorted[0], rest);
      [sorted[0]] + rest
  }

  /** Inserting an older version behind the head keeps the head newest. */
  lemma NoNewerThanHead(v: Version, sorted: seq<Version>, rest: seq<Version>)
    requires NewestFirst(sorted) && sorted != [] && v.asset.lastModified < sorted[0].asset.lastModified
    requires multiset(rest) == multiset(sorted[1..]) + multiset{v}
    ensures forall x :: x in rest ==> x.asset.lastModified <= sorted[0].asset.lastModified
  {
    forall x | x in rest ensures x.asset.lastModified <= sorted[0].asset.lastModified {
      assert x in multiset(rest);
      if x != v {
        var n :| 0 <= n < |sorted[1..]| && sorted[1..][n] == x;
        assert sorted[n + 1] == x;
      }
    }
  }

  /** A version no older than any of a newest-first list can go in front. */
  lemma NewestFirstCons(v: Version, vs: seq<Version>)
    requires NewestFirst(vs)
    requires forall x :: x in vs ==> x.asset.lastModified <= v.asset.lastModified
    ensures NewestFirst([v] + vs)
  {
    forall i, j | 0 <= i < j < |vs| + 1 ensures ([v] + vs)[i].asset.lastModified >= ([v] + vs)[j].asset.lastModified {
      if i > 0 {
        assert ([v] + vs)[i] == vs[i - 1];
      }
      assert ([v] + vs)[j] == vs[j - 1];
    }
  }

  /** `sort_by(&:last_modified).reverse`: the same versions, newest first.
      Versions with equal times may come in any order in Ruby; the
      properties below hold for every newest-first order. */
  function SortNewestFirst(vs: seq<Version>): (r: seq<Version>)
    ensures NewestFirst(r)
    ensures multiset(r) == multiset(vs)
  {
    if vs == [] then []
    else
      assert vs == vs[..|vs| - 1] + [vs[|vs| - 1]];
      InsertNewestFirst(vs[|vs| - 1], SortNewestFirst(vs[..|vs| - 1]))
  }

  /** `each_with_index.drop_while`: the position of the first version,
      from `from` on, that the keep rule does not keep. */
  function DropWhileKept(rule: Retention, current: Option<string>, sorted: seq<Version>, from: nat): (k: nat)
    requires from <= |sorted|
    ensures from <= k <= |sorted|
    ensures forall i :: from <= i < k ==> Keep(rule, current, sorted[i], i)
    ensures k < |sorted| ==> !Keep(rule, current, sorted[k], k)
    decreases |sorted| - from
  {
    if from == |sorted| || !Keep(rule, current, sorted[from], from) then from
    else DropWhileKept(rule, current, sorted, from + 1)
  }

  /** `sorted` is a newest-first arrangement of `cands`: any order
      `sort_by(&:last_modified).reverse` may produce. */
  ghost predicate ArrangedNewestFirst(sorted: seq<Version>, cands: seq<Version>)
  {
    NewestFirst(sorted) && multiset(sorted) == multiset(cands)
  }

  /** What `drop_while` leaves of an arrangement: the versions to delete. */
  function Dropped(rule: Retention, current: Option<string>, sorted: seq<Version>): seq<Version>
  {
    sorted[DropWhileKept(rule, current, sorted, 0)..]
  }

  /** The versions of one logical name that `clean_assets` deletes, for
      the newest-first order this model fixes. */
  function DoomedVersions(rule: Retention, current: Option<string>, versions: seq<Version>): (r: seq<Version>)
    ensures forall v :: v in r ==> v in versions && Some(v.asset.key) != current && VersionAge(rule, v) >= rule.age
    ensures |r| <= |Candidates(versions, current)|
  {
    var sorted := SortNewestFirst(Candidates(versions, current));
    assert |sorted| == |Candidates(versions, current)| by {
      assert |multiset(sorted)| == |multiset(Candidates(versions, current))|;
    }
    DroppedAreOldCandidates(rule, current, versions, sorted);
    Dropped(rule, current, sorted)
  }

  /** Along a newest-first list age and position both grow, so whatever
      the rule keeps at one position it also keeps at every earlier one. */
  lemma KeepIsMonotone(rule: Retention, current: Option<string>, sorted: seq<Version>, i: nat, j: nat)
    requires NewestFirst(sorted) && i < j < |sorted|
    requires Keep(rule, current, sorted[j], j)
    ensures Keep(rule, current, sorted[i], i)
  {
    assert sorted[i].asset.lastModified >= sorted[j].asset.lastModified;
  }

  /** `drop_while` drops exactly what the rule keeps: on a newest-first
      list a position is deleted if and only if the rule does not keep
      it, and the deleted positions are a suffix. */
  lemma DeletedExactlyUnkept(rule: Retention, current: Option<string>, sorted: seq<Version>)
    requires NewestFirst(sorted)
    ensures var k := DropWhileKept(rule, current, sorted, 0);
      forall i :: 0 <= i < |sorted| ==> (k <= i <==> !Keep(rule, current, sorted[i], i))
  {
    var k := DropWhileKept(rule, current, sorted, 0);
    forall i | k < i < |sorted| ensures !Keep(rule, current, sorted[i], i) {
      if Keep(rule, current, sorted[i], i) {
        KeepIsMonotone(rule, current, sorted, k, i);
      }
    }
  }

  /** A deleted version is a candidate (never the current key) and is at
      least `age` seconds old. */
  lemma DroppedAreOldCandidates(rule: Retention, current: Option<string>, versions: seq<Version>, sorted: seq<Version>)
    requires ArrangedNewestFirst(sorted, Candidates(versions, current))
    ensures forall v :: v in Dropped(rule, current, sorted) ==>
      v in versions && Some(v.asset.key) != current && VersionAge(rule, v) >= rule.age
  {
    var k := DropWhileKept(rule, current, sorted, 0);
    DeletedExactlyUnkept(rule, current, sorted);
    forall v | v in sorted[k..] ensures v in versions && Some(v.asset.key) != current && VersionAge(rule, v) >= rule.age {
      var n :| k <= n < |sorted| && sorted[n] == v;
      assert v in multiset(sorted);
    }
  }

  /** Once one candidate is deleted, every strictly older candidate is
      deleted too. */
  lemma DeletionIsASuffix(rule: Retention, current: Option<string>, versions: seq<Version>, sorted: seq<Version>,
                          older: Version, deleted: Version)
    requires ArrangedNewestFirst(sorted, Candidates(versions, current))
    requires deleted in Dropped(rule, current, sorted)
    requires older in Candidates(versions, current)
    requires older.asset.lastModified < deleted.asset.lastModified
    ensures older in Dropped(rule, current, sorted)
  {
    var k := DropWhileKept(rule, current, sorted, 0);
    var d :| k <= d < |sorted| && sorted[d] == deleted;
    assert older in multiset(sorted);
    var o :| 0 <= o < |sorted| && sorted[o] == older;
    assert sorted[o] in sorted[k..];
  }

  /** With a current version, at most `|candidates| - count` versions
      are deleted, so at least min(`count`, `|candidates|`) survive; that
      the deleted ones are the oldest is `DeletionIsASuffix`. */
  lemma NewestCountKept(rule: Retention, current: Option<string>, versions: seq<Version>, sorted: seq<Version>)
    requires current.Some? && ArrangedNewestFirst(sorted, Candidates(versions, current))
    ensures var n := |Candidates(versions, current)|;
      |Dropped(rule, current, sorted)| <= if rule.count <= 0 then n else if rule.count >= n then 0 else n - rule.count
  {
    assert |sorted| == |Candidates(versions, current)| by {
      assert |multiset(sorted)| == |multiset(Candidates(versions, current))|;
    }
    var k := DropWhileKept(rule, current, sorted, 0);
    if rule.count > 0 && k < |sorted| && k < rule.count {
      assert Keep(rule, current, sorted[k], k);
    }
  }

  /** When every candidate is at least `age` old, exactly the candidates
      beyond the `count` newest are deleted; without a current version
      all of them are. */
  lemma OldVersionsCount(rule: Retention, current: Option<string>, versions: seq<Version>, sorted: seq<Version>)
    requires forall v :: v in versions ==> VersionAge(rule, v) >= rule.age
    requires ArrangedNewestFirst(sorted, Candidates(versions, current))
    ensures var n := |Candidates(versions, current)|;
      |Dropped(rule, current, sorted)|
        == if current.None? || rule.count <= 0 then n else if rule.count >= n then 0 else n - rule.count
  {
    var cands := Candidates(versions, current);
    assert |sorted| == |cands| by {
      assert |multiset(sorted)| == |multiset(cands)|;
    }
    var k := DropWhileKept(rule, current, sorted, 0);
    DeletedExactlyUnkept(rule, current, sorted);
    forall i | 0 <= i < |sorted| ensures VersionAge(rule, sorted[i]) >= rule.age {
      assert sorted[i] in multiset(cands);
    }
    if !(current.None? || rule.count <= 0) && rule.count < |sorted| {
      assert !Keep(rule, current, sorted[rule.count], rule.count);
    }
  }

  /** `spec/manager_spec.rb`, "keep old versions up to count": four old
      versions of one asset, the newest of them current, `count: 2`. Only
      the oldest is deleted. */
  lemma KeepUpToCountExample(rule: Retention, v1: Version, v2: Version, v3: Version, v4: Version)
    requires rule.count == 2
    requires v1.asset.lastModified < v2.asset.lastModified < v3.asset.lastModified < v4.asset.lastModified
    requires VersionAge(rule, v3) >= rule.age
    requires v4.asset.key != v1.asset.key && v4.asset.key != v2.asset.key && v4.asset.key != v3.asset.key
    ensures DoomedVersions(rule, Some(v4.asset.key), [v1, v2, v3, v4]) == [v1]
  {
    var current, vs, s := Some(v4.asset.key), [v1, v2, v3, v4], [v3, v2, v1];
    assert SortNewestFirst(Candidates(vs, current)) == s by {
      CurrentIsNoCandidate(v1, v2, v3, v4);
      ThreeSortNewestFirst(v1, v2, v3);
    }
    assert s[DropWhileKept(rule, current, s, 0)..] == [v1] by {
      assert VersionAge(rule, v1) >= rule.age;
      TwoNewestKept(rule, current, v3, v2, v1);
    }
  }

  /** With a current version and `count: 2`, of three versions the
      oldest, when old enough, is the only one not kept. */
  lemma TwoNewestKept(rule: Retention, current: Option<string>, a: Version, b: Version, c: Version)
    requires rule.count == 2 && current.Some?
    requires VersionAge(rule, c) >= rule.age
    ensures [a, b, c][DropWhileKept(rule, current, [a, b, c], 0)..] == [c]
  {
    assert DropWhileKept(rule, current, [a, b, c], 2) == 2;
  }

  /** The current key is the only one `reject` removes. */
  lemma CurrentIsNoCandidate(v1: Version, v2: Version, v3: Version, v4: Version)
    requires v4.asset.key != v1.asset.key && v4.asset.key != v2.asset.key && v4.asset.key != v3.asset.key
    ensures Candidates([v1, v2, v3, v4], Some(v4.asset.key)) == [v1, v2, v3]
  {
    var current := Some(v4.asset.key);
    assert [v1, v2, v3, v4][..3] == [v1, v2, v3] && [v1, v2, v3][..2] == [v1, v2] && [v1, v2][..1] == [v1] && [v1][..0] == [];
    assert Candidates([v1], current) == [v1];
    assert Candidates([v1, v2], current) == [v1, v2];
    assert Candidates([v1, v2, v3], current) == [v1, v2, v3];
  }

  /** `reject` keeps the listing order. */
  lemma {:induction false} CandidatesKeepOrder(versions: seq<Version>, current: Option<string>)
    ensures IsSubsequence(Candidates(versions, current), versions)
    decreases |versions|
  {
    if versions != [] {
      var init, last := versions[..|versions| - 1], versions[|versions| - 1];
      assert versions == init + [last];
      CandidatesKeepOrder(init, current);
      CandidatesSnoc(init, last, current);
      var rest := Candidates(init, current);
      if Some(last.asset.key) == current {
        assert rest != [] ==> rest[|rest| - 1] in rest;
      } else {
        assert (rest + [last])[..|rest|] == rest;
      }
    }
  }

  /** `reject` keeps every other version as often as it is listed and
      drops every copy of the current one. */
  lemma {:induction false} CandidatesCount(versions: seq<Version>, current: Option<string>)
    ensures forall v ::
      multiset(Candidates(versions, current))[v] == if Some(v.asset.key) == current then 0 else multiset(versions)[v]
    decreases |versions|
  {
    if versions != [] {
      var init, last := versions[..|versions| - 1], versions[|versions| - 1];
      assert versions == init + [last];
      CandidatesCount(init, current);
      CandidatesSnoc(init, last, current);
    }
  }

  /** `reject` on a listing with one more version at its end. */
  lemma CandidatesSnoc(init: seq<Version>, last: Version, current: Option<string>)
    ensures Candidates(init + [last], current)
      == if Some(last.asset.key) == current then Candidates(init, current) else Candidates(init, current) + [last]
  {
    assert (init + [last])[..|init|] == init;
  }

  /** Three versions with increasing times come out reversed. */
  lemma ThreeSortNewestFirst(v1: Version, v2: Version, v3: Version)
    requires v1.asset.lastModified < v2.asset.lastModified < v3.asset.lastModified
    ensures SortNewestFirst([v1, v2, v3]) == [v3, v2, v1]
  {
    assert [v1, v2, v3][..2] == [v1, v2] && [v1, v2][..1] == [v1] && [v1][..0] == [];
    assert SortNewestFirst([v1]) == [v1];
    assert SortNewestFirst([v1, v2]) == [v2, v1];
  }

  // ---------------------------------------------------------------------
  // `clean_assets`

  /** `local_asset_map[logical_path]`: the current local path of a
      logical name, if any. */
  function Current(localMap: map<string, string>, logicalPath: string): Option<string>
  {
    if logicalPath in localMap then Some(localMap[logicalPath]) else None
  }

  /** The keys deleted for one group. */
  function GroupDeletions(rule: Retention, localMap: map<string, string>, group: (string, seq<Version>)): seq<string>
  {
    Map(VersionKey, DoomedVersions(rule, Current(localMap, group.0), group.1))
  }

  /** The keys deleted for each group, group after group. */
  function Deletions(rule: Retention, localMap: map<string, string>, groups: seq<(string, seq<Version>)>): seq<string>
  {
    if groups == [] then []
    else Deletions(rule, localMap, groups[..|groups| - 1]) + GroupDeletions(rule, localMap, groups[|groups| - 1])
  }

  /** What `clean_assets` answers: the duplicate error, nothing while a
      local asset is still missing from the bucket, otherwise every
      group's deletions. */
  function CleanSelection(rule: Retention, local: seq<string>, remote: seq<S3Object>): (r: Result<seq<string>, Error>)
    ensures r.Failure? <==> !Distinct(LocalLogicalAssetPaths(local))
    ensures r.Failure? ==> r.error == DuplicateAssetsError
    ensures Distinct(LocalLogicalAssetPaths(local)) && (exists p :: p in local && p !in RemoteAssetPaths(remote)) ==>
      r == Success([])
  {
    match LocalAssetMap(local)
    case Failure(e) => Failure(e)
    case Success(localMap) =>
      if LocalAssetsToUpload(local, remote) != [] then Success([])
      else Success(Deletions(rule, localMap, GroupedRemoteAssets(remote)))
  }

  /** A key in the deletions comes from a deleted version of some group. */
  lemma {:induction false} DeletionsComeFromGroups(rule: Retention, localMap: map<string, string>,
                                                   groups: seq<(string, seq<Version>)>, key: string)
    requires key in Deletions(rule, localMap, groups)
    ensures exists g, v :: (0 <= g < |groups| && v in DoomedVersions(rule, Current(localMap, groups[g].0), groups[g].1)
      && v.asset.key == key)
  {
    var init, last := groups[..|groups| - 1], groups[|groups| - 1];
    if key in Deletions(rule, localMap, init) {
      DeletionsComeFromGroups(rule, localMap, init, key);
      var g, v :| 0 <= g < |init| && v in DoomedVersions(rule, Current(localMap, init[g].0), init[g].1)
        && v.asset.key == key;
      assert groups[g] == init[g];
    } else {
      var doomed := DoomedVersions(rule, Current(localMap, last.0), last.1);
      var n :| 0 <= n < |doomed| && Map(VersionKey, doomed)[n] == key;
      assert doomed[n] in doomed;
    }
  }

  /** A deleted key belongs to a listed version at least `age` old that
      is not the current local path of its logical name. */
  lemma DeletedVersionOf(rule: Retention, localMap: map<string, string>, remote: seq<S3Object>, key: string)
    returns (v: Version)
    requires key in Deletions(rule, localMap, GroupedRemoteAssets(remote))
    ensures v.asset.key == key && v in Map(ToVersion, remote)
    ensures VersionAge(rule, v) >= rule.age && Current(localMap, v.logicalPath) != Some(key)
  {
    var groups := GroupedRemoteAssets(remote);
    DeletionsComeFromGroups(rule, localMap, groups, key);
    var g :| 0 <= g < |groups| &&
      exists w :: w in DoomedVersions(rule, Current(localMap, groups[g].0), groups[g].1) && w.asset.key == key;
    v :| v in DoomedVersions(rule, Current(localMap, groups[g].0), groups[g].1) && v.asset.key == key;
    GroupedRemoteAssetsMembers(remote);
  }

  /** A deleted key is a listed object at least `age` old, and it is
      not the current local path of its logical name. */
  lemma DeletedKeyIsOldCandidate(rule: Retention, localMap: map<string, string>, remote: seq<S3Object>, key: string)
    requires key in Deletions(rule, localMap, GroupedRemoteAssets(remote))
    ensures exists n :: 0 <= n < |remote| && remote[n].key == key && VersionAge(rule, ToVersion(remote[n])) >= rule.age
    ensures Current(localMap, LogicalPath(key)) != Some(key)
  {
    var v := DeletedVersionOf(rule, localMap, remote, key);
    var n :| 0 <= n < |remote| && Map(ToVersion, remote)[n] == v;
    assert ToVersion(remote[n]) == v;
  }

  /** A key that is not the current path of its own logical name is not
      a local asset. */
  lemma NotCurrentIsNotLocal(local: seq<string>, key: string)
    requires LocalAssetMap(local).Success?
    requires Current(LocalAssetMap(local).value, LogicalPath(key)) != Some(key)
    ensures key !in local
  {
    var localMap := LocalAssetMap(local).value;
    forall i | 0 <= i < |local| ensures local[i] != key {
      assert Current(localMap, LogicalPath(local[i])) == Some(local[i]);
    }
  }

  /** `clean_assets` deletes only keys that are in the bucket, never a
      key that is one of the local (current) assets, and never a version
      younger than `age`. */
  lemma CleanSparesLocalAssets(rule: Retention, local: seq<string>, remote: seq<S3Object>)
    ensures var r := CleanSelection(rule, local, remote);
      r.Success? ==> forall key :: key in r.value ==>
        && key in RemoteAssetPaths(remote)
        && key !in local
        && exists o :: o in remote && o.key == key && VersionAge(rule, ToVersion(o)) >= rule.age
  {
    var r := CleanSelection(rule, local, remote);
    if r.Success? && LocalAssetsToUpload(local, remote) == [] {
      assert r.value == Deletions(rule, LocalAssetMap(local).value, GroupedRemoteAssets(remote));
      forall key | key in r.value
        ensures key in RemoteAssetPaths(remote) && key !in local
        ensures exists o :: o in remote && o.key == key && VersionAge(rule, ToVersion(o)) >= rule.age
      {
        DeletedKeyIsSafe(rule, local, remote, key);
      }
    }
  }

  /** With no local assets, a bucket holding one object at least `age`
      old has that object deleted: a group without a current local path is
      judged by age alone. */
  lemma LoneOldObjectIsCleaned(rule: Retention, o: S3Object)
    requires VersionAge(rule, ToVersion(o)) >= rule.age
    ensures GroupedRemoteAssets([o]) == [(LogicalPath(o.key), [ToVersion(o)])]
    ensures CleanSelection(rule, [], [o]) == Success([o.key])
  {
    var v, g := ToVersion(o), (LogicalPath(o.key), [ToVersion(o)]);
    LoneGroup(o);
    assert CleanSelection(rule, [], [o]) == Success(Deletions(rule, map[], [g])) by {
      NoLocalAssets([o]);
    }
    assert Deletions(rule, map[], [g]) == GroupDeletions(rule, map[], g) by {
      assert [g][..0] == [];
    }
    assert GroupDeletions(rule, map[], g) == [o.key] by {
      LoneOldVersionIsDoomed(rule, v);
      assert Map(VersionKey, [v]) == [o.key];
    }
  }

  /** With no local assets there is no duplicate and nothing to upload. */
  lemma NoLocalAssets(remote: seq<S3Object>)
    ensures LocalAssetMap([]) == Success(map[])
    ensures LocalAssetsToUpload([], remote) == []
  {
    UniqLength(LocalLogicalAssetPaths([]));
  }

  /** A listing of one object makes one group. */
  lemma LoneGroup(o: S3Object)
    ensures GroupedRemoteAssets([o]) == [(LogicalPath(o.key), [ToVersion(o)])]
  {
    var v := ToVersion(o);
    assert Map(ToVersion, [o]) == [v];
    assert [v][..0] == [];
    assert GroupBy([v], VersionPath) == AddToGroup([], VersionPath(v), v);
    assert FindGroup<string, Version>([], VersionPath(v)) == None;
  }

  /** A lone version without a current local path is deleted once old. */
  lemma LoneOldVersionIsDoomed(rule: Retention, v: Version)
    requires VersionAge(rule, v) >= rule.age
    ensures DoomedVersions(rule, None, [v]) == [v]
  {
    assert [v][..0] == [];
    assert Candidates([v], None) == [v];
    assert SortNewestFirst([v]) == [v];
    assert DropWhileKept(rule, None, [v], 0) == 0;
  }

  /** The removal manifest's own key has the fingerprint shape: the
      segment after its last hyphen, `manifest`, is alphanumeric. */
  lemma ManifestKeyTokens()
    ensures AssetHelper.NoNewline("s3-asset-deploy-removal") && AssetHelper.IsFingerprint("manifest")
    ensures AssetHelper.IsExtensions(".json")
  {
  }

  lemma ManifestKeyMatches()
    ensures AssetHelper.Matches(RemovalManifests.PATH, AssetHelper.Parts("s3-asset-deploy-removal", "manifest", ".json"))
  {
    ManifestKeyTokens();
    assert RemovalManifests.PATH == "s3-asset-deploy-removal" + "-" + ("manifest" + ".json");
  }

  /** The logical name of the removal manifest's key is
      `s3-asset-deploy-removal.json`, and no warning is logged for it. */
  lemma ManifestKeyLogicalName()
    ensures AssetHelper.RemoveFingerprint(RemovalManifests.PATH) == "s3-asset-deploy-removal" + ".json"
  {
    ManifestKeyMatches();
    AssetHelper.LogicalNameOfMatch(RemovalManifests.PATH, AssetHelper.Parts("s3-asset-deploy-removal", "manifest", ".json"));
  }

  lemma ManifestKeyNoWarning()
    ensures RemoveFingerprint(RemovalManifests.PATH).warning.None?
  {
    ManifestKeyMatches();
    NoWarningForMatch(RemovalManifests.PATH, AssetHelper.Parts("s3-asset-deploy-removal", "manifest", ".json"));
  }

  lemma NoWarningForMatch(key: string, p: AssetHelper.Parts)
    requires AssetHelper.Matches(key, p)
    ensures RemoveFingerprint(key).warning.None?
  {
  }

  /** A removal manifest stored in the bucket that `clean_assets` cleans
      is taken for a version of the asset `s3-asset-deploy-removal.json`:
      when no local asset has that name and nothing is left to upload, it
      is deleted once `age` old. */
  lemma OldManifestIsCleaned(rule: Retention, local: seq<string>, remote: seq<S3Object>, lastModified: int)
    requires S3Object(RemovalManifests.PATH, lastModified) in remote
    requires rule.now - lastModified >= rule.age
    requires forall p :: p in local ==> LogicalPath(p) != "s3-asset-deploy-removal" + ".json"
    requires CleanSelection(rule, local, remote).Success? && LocalAssetsToUpload(local, remote) == []
    ensures RemovalManifests.PATH in CleanSelection(rule, local, remote).value
  {
    ManifestKeyLogicalName();
    assert LogicalPath(RemovalManifests.PATH) == "s3-asset-deploy-removal" + ".json";
    OldUnclaimedObjectIsCleaned(rule, local, remote, S3Object(RemovalManifests.PATH, lastModified));
  }

  /** A listed object at least `age` old whose logical name no local
      asset has is deleted, once nothing is left to upload. */
  lemma OldUnclaimedObjectIsCleaned(rule: Retention, local: seq<string>, remote: seq<S3Object>, o: S3Object)
    requires o in remote && VersionAge(rule, ToVersion(o)) >= rule.age
    requires forall p :: p in local ==> LogicalPath(p) != LogicalPath(o.key)
    requires CleanSelection(rule, local, remote).Success? && LocalAssetsToUpload(local, remote) == []
    ensures o.key in CleanSelection(rule, local, remote).value
  {
    var localMap := LocalAssetMap(local).value;
    var groups := GroupedRemoteAssets(remote);
    assert CleanSelection(rule, local, remote).value == Deletions(rule, localMap, groups);
    var g := GroupOfObject(remote, o);
    assert Current(localMap, groups[g].0) == None by {
      UnclaimedHasNoCurrent(local, LogicalPath(o.key));
    }
    assert o.key in GroupDeletions(rule, localMap, groups[g]) by {
      OldVersionDoomedWithoutCurrent(rule, groups[g].1, ToVersion(o));
      var doomed := DoomedVersions(rule, None, groups[g].1);
      var m :| 0 <= m < |doomed| && doomed[m] == ToVersion(o);
      assert Map(VersionKey, doomed)[m] == o.key;
    }
    GroupDeletionsInDeletions(rule, localMap, groups, g, o.key);
  }

  /** The group a listed object falls into: the one of its logical name. */
  lemma GroupOfObject(remote: seq<S3Object>, o: S3Object) returns (g: nat)
    requires o in remote
    ensures g < |GroupedRemoteAssets(remote)|
    ensures GroupedRemoteAssets(remote)[g].0 == LogicalPath(o.key)
    ensures ToVersion(o) in GroupedRemoteAssets(remote)[g].1
  {
    var groups := GroupedRemoteAssets(remote);
    GroupedRemoteAssetsCover(remote);
    g :| 0 <= g < |groups| && Map(GroupKey, groups)[g] == LogicalPath(o.key);
    GroupedRemoteAssetsMembers(remote);
    var n :| 0 <= n < |remote| && remote[n] == o;
    assert Map(ToVersion, remote)[n] == ToVersion(o);
  }

  /** A logical name no local path has is no key of the local map. */
  lemma UnclaimedHasNoCurrent(local: seq<string>, name: string)
    requires LocalAssetMap(local).Success?
    requires forall p :: p in local ==> LogicalPath(p) != name
    ensures Current(LocalAssetMap(local).value, name) == None
  {
    forall i | 0 <= i < |local| ensures LocalLogicalAssetPaths(local)[i] != name {
      assert local[i] in local;
    }
  }

  /** Without a current version, every version at least `age` old is
      deleted. */
  lemma OldVersionDoomedWithoutCurrent(rule: Retention, versions: seq<Version>, v: Version)
    requires v in versions && VersionAge(rule, v) >= rule.age
    ensures v in DoomedVersions(rule, None, versions)
  {
    var cands := Candidates(versions, None);
    var sorted := SortNewestFirst(cands);
    assert v in multiset(sorted) by {
      assert v in cands;
    }
    var n :| 0 <= n < |sorted| && sorted[n] == v;
    DeletedExactlyUnkept(rule, None, sorted);
    var k := DropWhileKept(rule, None, sorted, 0);
    assert !Keep(rule, None, sorted[n], n);
    assert sorted[n] in sorted[k..];
    assert DoomedVersions(rule, None, versions) == Dropped(rule, None, sorted);
  }

  /** The deletions of every group are among the collected deletions. */
  lemma {:induction false} GroupDeletionsInDeletions(rule: Retention, localMap: map<string, string>,
                                                     groups: seq<(string, seq<Version>)>, g: nat, key: string)
    requires g < |groups| && key in GroupDeletions(rule, localMap, groups[g])
    ensures key in Deletions(rule, localMap, groups)
    decreases |groups|
  {
    var init := groups[..|groups| - 1];
    if g < |groups| - 1 {
      assert groups[g] == init[g];
      GroupDeletionsInDeletions(rule, localMap, init, g, key);
    }
  }

  /** One deleted key: listed, old enough, and not a local asset. */
  lemma DeletedKeyIsSafe(rule: Retention, local: seq<string>, remote: seq<S3Object>, key: string)
    requires LocalAssetMap(local).Success?
    requires key in Deletions(rule, LocalAssetMap(local).value, GroupedRemoteAssets(remote))
    ensures key in RemoteAssetPaths(remote) && key !in local
    ensures exists o :: o in remote && o.key == key && VersionAge(rule, ToVersion(o)) >= rule.age
  {
    var localMap := LocalAssetMap(local).value;
    assert key !in local by {
      DeletedKeyIsOldCandidate(rule, localMap, remote, key);
      NotCurrentIsNotLocal(local, key);
    }
    DeletedKeyIsOldCandidate(rule, localMap, remote, key);
    var n :| 0 <= n < |remote| && remote[n].key == key && VersionAge(rule, ToVersion(remote[n])) >= rule.age;
    assert RemoteAssetPaths(remote)[n] == key && remote[n] in remote;
  }

  /** Taking one more group adds that group's deletions at the end. */
  lemma DeletionsSnoc(rule: Retention, localMap: map<string, string>, groups: seq<(string, seq<Version>)>, g: nat)
    requires g < |groups|
    ensures Deletions(rule, localMap, groups[..g + 1])
      == Deletions(rule, localMap, groups[..g]) + GroupDeletions(rule, localMap, groups[g])
  {
    assert groups[..g + 1][..g] == groups[..g];
  }

  /** The keys of a prefix grow by one key per version taken. */
  lemma KeysOfLongerPrefix(vs: seq<Version>, n: nat)
    requires n < |vs|
    ensures Map(VersionKey, vs[..n + 1]) == Map(VersionKey, vs[..n]) + [vs[n].asset.key]
  {
    assert vs[..n + 1] == vs[..n] + [vs[n]];
    MapSnoc(VersionKey, vs[..n], vs[n]);
  }

  /** The `grouped_remote_assets.each` loop of `clean_assets`: for each
      logical name, the versions `drop_while` leaves, appended in order. */
  method CollectDeletions(rule: Retention, localMap: map<string, string>, groups: seq<(string, seq<Version>)>)
    returns (assetsToDelete: seq<string>)
    ensures assetsToDelete == Deletions(rule, localMap, groups)
  {
    assetsToDelete := [];
    var g := 0;
    while g < |groups|
      invariant g <= |groups|
      invariant assetsToDelete == Deletions(rule, localMap, groups[..g])
    {
      var (logicalPath, versions) := groups[g];
      var doomed := DoomedVersions(rule, Current(localMap, logicalPath), versions);
      assetsToDelete := AppendKeys(assetsToDelete, doomed);
      DeletionsSnoc(rule, localMap, groups, g);
      g := g + 1;
    }
    assert groups[..g] == groups;
  }

  /** The final `each` of `clean_assets`: appends the key of every
      version, in order. */
  method AppendKeys(assetsToDelete: seq<string>, versions: seq<Version>) returns (r: seq<string>)
    ensures r == assetsToDelete + Map(VersionKey, versions)
  {
    r := assetsToDelete;
    var j := 0;
    while j < |versions|
      invariant j <= |versions|
      invariant r == assetsToDelete + Map(VersionKey, versions[..j])
    {
      KeysOfLongerPrefix(versions, j);
      r := r + [versions[j].asset.key];
      j := j + 1;
    }
    assert versions[..j] == versions;
  }

  /** One `delete_objects` request. */
  datatype DeleteRequest = DeleteObjects(bucket: string, keys: seq<string>)

  /** `clean_assets`: collects the keys to delete group by group, then
      sends one delete for all of them unless the list is empty or this
      is a dry run. The answer does not depend on `dryRun`. */
  method CleanAssets(bucketName: string, local: seq<string>, remote: seq<S3Object>, now: int,
                     count: int := 2, age: int := 3600, dryRun: bool := false)
    returns (r: Result<seq<string>, Error>, deletes: seq<DeleteRequest>)
    ensures r == CleanSelection(Retention(count, age, now), local, remote)
    ensures deletes == if r.Success? && r.value != [] && !dryRun then [DeleteObjects(bucketName, r.value)] else []
  {
    var rule := Retention(count, age, now);
    if VerifyNoDuplicateAssets(local).Fail? {
      return Failure(DuplicateAssetsError), [];
    }
    var assetsToDelete: seq<string> := [];
    if LocalAssetsToUpload(local, remote) != [] {
      return Success(assetsToDelete), [];
    }
    assetsToDelete := CollectDeletions(rule, LocalAssetMap(local).value, GroupedRemoteAssets(remote));
    r := Success(assetsToDelete);
    deletes := if assetsToDelete != [] && !dryRun then [DeleteObjects(bucketName, assetsToDelete)] else [];
  }

  // ---------------------------------------------------------------------
  // `upload_assets`

  /** The `put_object` request of `upload_asset`; the file body is not
      part of this model. `contentType` is `None` where the MIME type
      table would decide. */
  datatype PutRequest = PutObject(bucket: string, key: string, acl: string,
                                  contentType: Option<string>, cacheControl: string)

  /** `upload_asset`: a public, year-long cacheable object under the
      asset's own path. */
  function UploadRequest(bucketName: string, assetPath: string): (req: PutRequest)
    ensures req.bucket == bucketName && req.key == assetPath
    ensures req.acl == "public-read" && req.cacheControl == "public, max-age=31536000"
    ensures req.contentType == AssetHelper.MimeTypeForPath(assetPath)
  {
    PutObject(bucketName, assetPath, "public-read", AssetHelper.MimeTypeForPath(assetPath), "public, max-age=31536000")
  }

  /** `upload_asset` for a fixed bucket, as a function of the path. */
  function UploadRequestTo(bucketName: string): string -> PutRequest
  {
    assetPath => UploadRequest(bucketName, assetPath)
  }

  /** The requests `upload_assets` sends when not a dry run: one per
      asset still to upload whose file exists, in order. */
  function Uploads(bucketName: string, toUpload: seq<string>, isFile: string -> bool): seq<PutRequest>
  {
    Map(UploadRequestTo(bucketName), WithKey(toUpload, isFile, true))
  }

  /** Every upload is to the deployer's bucket, for a local asset whose
      file exists and that the bucket lacks. */
  lemma UploadsAreMissingFiles(bucketName: string, local: seq<string>, remote: seq<S3Object>, isFile: string -> bool)
    ensures forall req :: req in Uploads(bucketName, LocalAssetsToUpload(local, remote), isFile) ==>
      req.bucket == bucketName && req.key in local && req.key !in RemoteAssetPaths(remote) && isFile(req.key)
  {
    var files := WithKey(LocalAssetsToUpload(local, remote), isFile, true);
    forall req | req in Uploads(bucketName, LocalAssetsToUpload(local, remote), isFile)
      ensures req.bucket == bucketName && req.key in local && req.key !in RemoteAssetPaths(remote) && isFile(req.key)
    {
      var n :| 0 <= n < |files| && Map(UploadRequestTo(bucketName), files)[n] == req;
      assert files[n] in files;
    }
  }

  /** `upload_assets`: runs the duplicate check, then uploads each local
      asset missing from the bucket whose file exists, unless this is a
      dry run. Like Ruby's `each`, it answers the list it walked. */
  method UploadAssets(bucketName: string, local: seq<string>, remote: seq<S3Object>,
                      isFile: string -> bool, dryRun: bool := false)
    returns (r: Result<seq<string>, Error>, puts: seq<PutRequest>)
    ensures VerifyNoDuplicateAssets(local).Fail? ==> r == Failure(DuplicateAssetsError)
    ensures VerifyNoDuplicateAssets(local).Pass? ==> r == Success(LocalAssetsToUpload(local, remote))
    ensures puts == if r.Failure? || dryRun then [] else Uploads(bucketName, r.value, isFile)
  {
    if VerifyNoDuplicateAssets(local).Fail? {
      return Failure(DuplicateAssetsError), [];
    }
    var toUpload := LocalAssetsToUpload(local, remote);
    puts := UploadEach(bucketName, toUpload, isFile, dryRun);
    r := Success(toUpload);
  }

  /** The `local_assets_to_upload.each` loop of `upload_assets`: skip a
      path whose file does not exist (`next`), otherwise upload it unless
      this is a dry run. */
  method UploadEach(bucketName: string, toUpload: seq<string>, isFile: string -> bool, dryRun: bool)
    returns (puts: seq<PutRequest>)
    ensures puts == if dryRun then [] else Uploads(bucketName, toUpload, isFile)
  {
    puts := [];
    var i := 0;
    while i < |toUpload|
      invariant i <= |toUpload|
      invariant puts == if dryRun then [] else Uploads(bucketName, toUpload[..i], isFile)
    {
      var assetPath := toUpload[i];
      UploadsSnoc(bucketName, toUpload, isFile, i);
      if !isFile(assetPath) {
        i := i + 1;
        continue;
      }
      if !dryRun {
        puts := puts + [UploadRequest(bucketName, assetPath)];
      }
      i := i + 1;
    }
    assert toUpload[..i] == toUpload;
  }

  /** Walking one more path adds its request exactly when its file exists. */
  lemma UploadsSnoc(bucketName: string, paths: seq<string>, isFile: string -> bool, i: nat)
    requires i < |paths|
    ensures Uploads(bucketName, paths[..i + 1], isFile)
      == Uploads(bucketName, paths[..i], isFile) + if isFile(paths[i]) then [UploadRequest(bucketName, paths[i])] else []
  {
    assert paths[..i + 1] == paths[..i] + [paths[i]];
    WithKeySnoc(paths[..i], isFile, true, paths[i]);
    if isFile(paths[i]) {
      MapSnoc(UploadRequestTo(bucketName), WithKey(paths[..i], isFile, true), paths[i]);
    }
  }
}
