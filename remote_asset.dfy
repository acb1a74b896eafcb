/**
 * `S3AssetDeploy::RemoteAsset`: one object of the bucket listing,
 * wrapped. Only the two fields the deployer reads are kept: the key and
 * the modification time (whole seconds).
 */
module RemoteAssets {
  import AssetHelper

  /** The listed S3 object. */
  datatype S3Object = S3Object(key: string, lastModified: int)

  datatype RemoteAsset = RemoteAsset(s3Object: S3Object)
  {
    /** `path`: the object key. */
    function Path(): string
    {
      s3Object.key
    }

    /** `last_modified`. */
    function LastModified(): int
    {
      s3Object.lastModified
    }

    /** `original_path`: the key's logical name (memoised in Ruby, a
        function of the key here). */
    function OriginalPath(): string
    {
      AssetHelper.RemoveFingerprint(Path())
    }

    /** `==`: two remote assets are equal when their keys are. */
    predicate SameAs(other: RemoteAsset)
    {
      Path() == other.Path()
    }

    /** `to_s`. */
    function ToS(): string
    {
      Path()
    }
  }

  /** The accessors hand back the wrapped object's fields unchanged, and
      the logical name depends on the key alone. */
  lemma AccessorsReadTheObject(key: string, lastModified: int)
    ensures RemoteAsset(S3Object(key, lastModified)).Path() == key
    ensures RemoteAsset(S3Object(key, lastModified)).ToS() == key
    ensures RemoteAsset(S3Object(key, lastModified)).LastModified() == lastModified
    ensures forall t: int ::
      (RemoteAsset(S3Object(key, t)).OriginalPath() == RemoteAsset(S3Object(key, lastModified)).OriginalPath())
  {
  }

  /** `==` compares keys only: versions of one key listed with different
      timestamps are equal, and equal assets have the same logical name. */
  lemma SameAsIgnoresTimestamp(a: RemoteAsset, b: RemoteAsset)
    ensures a.SameAs(b) <==> a.s3Object.key == b.s3Object.key
    ensures a.SameAs(b) ==> a.OriginalPath() == b.OriginalPath()
    ensures a.SameAs(RemoteAsset(S3Object(a.s3Object.key, a.s3Object.lastModified + 1)))
  {
  }

  /** `spec/remote_asset_spec.rb`: the logical name of a fingerprinted key. */
  lemma OriginalPathExample(lastModified: int)
    ensures RemoteAsset(S3Object("packs/js/0-3e1f1b9c14ca587bae85.chunk.js", lastModified)).OriginalPath()
      == "packs/js/0" + ".chunk.js"
  {
    AssetHelper.ChunkExampleLogicalName();
  }
}
