/**
 * `S3AssetDeploy::LocalAssetCollector`: the base collector of local
 * assets. A collector is modelled by the list its `assets` method
 * returns; the base class returns none, subclasses (the Rails one is not
 * part of this model) return what they discover. The stored
 * `remove_fingerprint:` option is never read by the base class.
 */
module LocalAssetCollectors {
  import opened Enumerable
  import opened LocalAssets

  datatype LocalAssetCollector = LocalAssetCollector(assets: seq<LocalAsset>)
  {
    /** `asset_paths`: the paths, in listing order. */
    function AssetPaths(): (r: seq<string>)
      ensures |r| == |assets|
      ensures forall i :: 0 <= i < |assets| ==> r[i] == assets[i].path
    {
      Map((a: LocalAsset) => a.path, assets)
    }

    /** `original_asset_paths`: the logical names, in listing order. */
    function OriginalAssetPaths(): (r: seq<string>)
      ensures |r| == |assets|
      ensures forall i :: 0 <= i < |assets| ==> r[i] == assets[i].OriginalPath()
    {
      Map((a: LocalAsset) => a.OriginalPath(), assets)
    }

    /** The `[original_path, asset]` pairs `asset_map` hands to `to_h`. */
    function AssetPairs(): seq<(string, LocalAsset)>
    {
      Map((a: LocalAsset) => (a.OriginalPath(), a), assets)
    }

    /** `asset_map`: logical name to asset; of several assets with one
        logical name the last listed wins. */
    function AssetMap(): (m: map<string, LocalAsset>)
      ensures forall k :: k in m <==> k in OriginalAssetPaths()
      ensures forall i :: 0 <= i < |assets| && LastWithKey(AssetPairs(), i) ==>
        assets[i].OriginalPath() in m && m[assets[i].OriginalPath()] == assets[i]
    {
      PairKeysAreOriginalPaths();
      ToH(AssetPairs())
    }

    lemma PairKeysAreOriginalPaths()
      ensures Map(PairKey, AssetPairs()) == OriginalAssetPaths()
    {
    }

    /** `full_file_path`: the base collector resolves a path to itself. */
    function FullFilePath(assetPath: string): (r: string)
      ensures r == assetPath
    {
      assetPath
    }
  }

  /** The base class collects nothing. */
  function BaseCollector(): LocalAssetCollector
  {
    LocalAssetCollector([])
  }

  /** Everything the base collector derives from its assets is empty. */
  lemma BaseCollectorIsEmpty()
    ensures BaseCollector().AssetPaths() == []
    ensures BaseCollector().OriginalAssetPaths() == []
    ensures BaseCollector().AssetMap() == map[]
  {
  }

  /** `asset_map` has one entry per asset exactly when no two assets
      share a logical name; otherwise it is smaller. */
  lemma AssetMapSize(c: LocalAssetCollector)
    ensures |c.AssetMap()| <= |c.assets|
    ensures |c.AssetMap()| == |c.assets| <==> Distinct(c.OriginalAssetPaths())
  {
    c.PairKeysAreOriginalPaths();
    ToHSize(c.AssetPairs());
  }

  /** When the logical names are distinct, every asset is found under
      its own logical name. */
  lemma AssetMapFindsEveryAsset(c: LocalAssetCollector)
    requires Distinct(c.OriginalAssetPaths())
    ensures forall i :: 0 <= i < |c.assets| ==> c.AssetMap()[c.assets[i].OriginalPath()] == c.assets[i]
  {
    var pairs := c.AssetPairs();
    forall i | 0 <= i < |c.assets| ensures c.AssetMap()[c.assets[i].OriginalPath()] == c.assets[i] {
      assert LastWithKey(pairs, i) by {
        forall j | i < j < |pairs| ensures pairs[j].0 != pairs[i].0 {
          assert c.OriginalAssetPaths()[j] != c.OriginalAssetPaths()[i];
        }
      }
    }
  }
}
