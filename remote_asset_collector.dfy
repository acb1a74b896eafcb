/**
 * `S3AssetDeploy::RemoteAssetCollector`: the bucket listing as remote
 * assets. The pages `list_objects_v2` returns are an input; the
 * projections and the grouping are functions of the collected list.
 */
module RemoteAssetCollectors {
  import opened Enumerable
  import opened RemoteAssets

  /** One page of a `list_objects_v2` response. */
  datatype ListPage = ListPage(contents: seq<S3Object>)

  /** The objects of all pages, page after page. */
  function Listing(pages: seq<ListPage>): seq<S3Object>
  {
    if pages == [] then [] else Listing(pages[..|pages| - 1]) + pages[|pages| - 1].contents
  }

  /** An object is listed exactly when some page holds it, and the
      listing is as long as all pages together. */
  lemma {:induction false} ListingHoldsEveryPage(pages: seq<ListPage>)
    ensures forall o :: o in Listing(pages) <==> exists i :: 0 <= i < |pages| && o in pages[i].contents
    ensures |Listing(pages)| == PageTotal(pages)
  {
    if pages != [] {
      var init := pages[..|pages| - 1];
      ListingHoldsEveryPage(init);
      forall o ensures o in Listing(pages) <==> exists i :: 0 <= i < |pages| && o in pages[i].contents {
        if o in Listing(init) {
          var i :| 0 <= i < |init| && o in init[i].contents;
          assert pages[i] == init[i];
        }
        if exists i :: 0 <= i < |pages| && o in pages[i].contents {
          var i :| 0 <= i < |pages| && o in pages[i].contents;
          if i < |init| {
            assert init[i] == pages[i];
          }
        }
      }
    }
  }

  /** The number of objects over all pages. */
  function PageTotal(pages: seq<ListPage>): nat
  {
    if pages == [] then 0 else PageTotal(pages[..|pages| - 1]) + |pages[|pages| - 1].contents|
  }

  /** `assets`: each page's objects, wrapped, appended to the result in
      page order. */
  method Assets(pages: seq<ListPage>) returns (assets: seq<RemoteAsset>)
    ensures |assets| == |Listing(pages)|
    ensures forall i :: 0 <= i < |assets| ==> assets[i] == RemoteAsset(Listing(pages)[i])
  {
    assets := [];
    var n := 0;
    while n < |pages|
      invariant n <= |pages|
      invariant |assets| == |Listing(pages[..n])|
      invariant forall i :: 0 <= i < |assets| ==> assets[i] == RemoteAsset(Listing(pages[..n])[i])
    {
      assert pages[..n + 1][..n] == pages[..n];
      assets := assets + Map((o: S3Object) => RemoteAsset(o), pages[n].contents);
      n := n + 1;
    }
    assert pages[..n] == pages;
  }

  /** `asset_paths`: the keys, in listing order. */
  function AssetPaths(assets: seq<RemoteAsset>): (r: seq<string>)
    ensures |r| == |assets|
    ensures forall i :: 0 <= i < |assets| ==> r[i] == assets[i].Path()
  {
    Map((a: RemoteAsset) => a.Path(), assets)
  }

  /** The logical name an asset is grouped under. */
  function GroupingKey(a: RemoteAsset): string
  {
    a.OriginalPath()
  }

  /** `grouped_assets`: Ruby `group_by(&:original_path)`, an ordered hash
      from logical name to the assets that carry it. */
  function GroupedAssets(assets: seq<RemoteAsset>): seq<(string, seq<RemoteAsset>)>
  {
    GroupBy(assets, GroupingKey)
  }

  /** Every asset is in the group of its logical name and in no other;
      each group is non-empty and keyed by its members' logical name;
      no key has two groups. */
  lemma GroupedAssetsPartition(assets: seq<RemoteAsset>)
    ensures var gs := GroupedAssets(assets);
      && (forall a :: a in assets ==> a.OriginalPath() in Map(GroupKey, gs))
      && (forall i, a :: 0 <= i < |gs| ==> (a in gs[i].1 <==> a in assets && a.OriginalPath() == gs[i].0))
      && (forall i :: 0 <= i < |gs| ==> gs[i].1 != [])
      && (forall i, j :: 0 <= i < j < |gs| ==> gs[i].0 != gs[j].0)
  {
    GroupByKeys(assets, GroupingKey);
    GroupByMembers(assets, GroupingKey);
    GroupByNonEmpty(assets, GroupingKey);
  }

  /** The group sizes add up to the number of assets. */
  lemma GroupedAssetsCount(assets: seq<RemoteAsset>)
    ensures TotalSize(GroupedAssets(assets)) == |assets|
  {
    GroupBySizes(assets, GroupingKey);
  }

  /** Groups come in the order their logical names first occur, and each
      group lists its assets in listing order. */
  lemma GroupedAssetsOrder(assets: seq<RemoteAsset>)
    ensures var gs := GroupedAssets(assets);
      var names := Map(GroupingKey, assets);
      && (forall i :: 0 <= i < |gs| ==> gs[i].0 in names)
      && (forall i, j :: 0 <= i < j < |gs| ==> FirstIndex(names, gs[i].0) < FirstIndex(names, gs[j].0))
      && (forall i :: 0 <= i < |gs| ==> IsSubsequence(gs[i].1, assets))
  {
    var gs := GroupedAssets(assets);
    var names := Map(GroupingKey, assets);
    GroupByExact(assets, GroupingKey);
    UniqOrder(names);
    assert Map(GroupKey, gs) == Uniq(names);
    forall i | 0 <= i < |gs| ensures gs[i].0 in names {
      assert Map(GroupKey, gs)[i] == gs[i].0;
    }
    forall i, j | 0 <= i < j < |gs| ensures FirstIndex(names, gs[i].0) < FirstIndex(names, gs[j].0) {
      assert Map(GroupKey, gs)[i] == gs[i].0 && Map(GroupKey, gs)[j] == gs[j].0;
    }
  }
}
