/**
 * `S3AssetDeploy::LocalAsset`: a precompiled file found locally, named by
 * its fingerprinted path relative to the public directory. The
 * `@original_path ||=` memo caches a value that depends on `path` alone,
 * so it is modelled as a function of the asset.
 */
module LocalAssets {
  import opened Wrappers
  import AssetHelper

  /** A local asset: its path and the optional injected
      `remove_fingerprint:` callable (`None` is Ruby `nil`). */
  datatype LocalAsset = LocalAsset(path: string, removeFingerprint: Option<string -> string>)
  {
    /** `original_path`: the logical name, from the injected callable when
        there is one, otherwise from the default fingerprint pattern. */
    function OriginalPath(): (r: string)
      ensures removeFingerprint.Some? ==> r == removeFingerprint.value(path)
      ensures removeFingerprint.None? ==> r == AssetHelper.RemoveFingerprint(path)
    {
      match removeFingerprint
      case Some(f) => f(path)
      case None => AssetHelper.RemoveFingerprint(path)
    }

    /** `==`: two local assets are equal when their paths are. */
    predicate SameAs(other: LocalAsset)
    {
      path == other.path
    }

    /** `to_s`. */
    function ToS(): string
    {
      path
    }
  }

  /** `==` compares paths only: it is an equivalence that ignores the
      fingerprint callables and agrees with comparing `to_s`. */
  lemma SameAsIsPathEquality(a: LocalAsset, b: LocalAsset, c: LocalAsset)
    ensures a.SameAs(b) <==> a.path == b.path
    ensures a.SameAs(b) <==> a.ToS() == b.ToS()
    ensures a.SameAs(a)
    ensures a.SameAs(b) ==> b.SameAs(a)
    ensures a.SameAs(b) && b.SameAs(c) ==> a.SameAs(c)
    ensures a.SameAs(LocalAsset(a.path, None))
  {
  }

  /** With the default callable, a fingerprinted path's logical name
      drops exactly its last hyphen segment, and an unfingerprinted path
      is its own logical name. */
  lemma DefaultOriginalPath(path: string, p: AssetHelper.Parts)
    ensures AssetHelper.Matches(path, p) ==>
      LocalAsset(path, None).OriginalPath() == p.base + p.extensions
    ensures (forall q :: !AssetHelper.Matches(path, q)) ==>
      LocalAsset(path, None).OriginalPath() == path
  {
    if forall q :: !AssetHelper.Matches(path, q) {
      AssetHelper.RemoveFingerprintWithoutMatch(path);
    }
  }
}
