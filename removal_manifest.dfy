/**
 * `S3AssetDeploy::RemovalManifest`: a JSON object stored in the bucket
 * under `PATH`, loaded at most once, edited in memory and written back
 * only when it was loaded and has changed. The S3 client is not part of
 * this model: the answer to the one `get_object` call is an input of
 * `Load`, and every request the manifest sends is appended to a ghost
 * request log.
 */
module RemovalManifests {
  import opened Wrappers
  import opened Enumerable

  /** The object key of the manifest. */
  const PATH := "s3-asset-deploy-removal-manifest.json"

  /** A Ruby Hash from strings to strings: its keys in insertion order and
      its entries. */
  datatype OrderedHash = OrderedHash(keys: seq<string>, entries: map<string, string>)
  {
    /** The key list holds each key of the entries once. */
    ghost predicate Valid()
    {
      Distinct(keys) && forall k :: k in entries <==> k in keys
    }

    /** `hash[key]`: the value, or `nil`. */
    function Get(key: string): (r: Option<string>)
      ensures r.Some? <==> key in entries
      ensures r.Some? ==> r.value == entries[key]
    {
      if key in entries then Some(entries[key]) else None
    }

    /** `hash[key] = value`: a new key goes to the end of the key order,
        an existing key keeps its place. */
    function Put(key: string, value: string): (h: OrderedHash)
      requires Valid()
      ensures h.Valid()
      ensures h.Get(key) == Some(value)
      ensures forall k :: k != key ==> h.Get(k) == Get(k)
      ensures key in entries ==> h.keys == keys
      ensures key !in entries ==> h.keys == keys + [key]
    {
      if key in entries then OrderedHash(keys, entries[key := value])
      else
        DistinctSnoc(keys, key);
        OrderedHash(keys + [key], entries[key := value])
    }

    /** `hash.delete(key)`: the key is gone, the others keep their order. */
    function Remove(key: string): (h: OrderedHash)
      requires Valid()
      ensures h.Valid()
      ensures h.Get(key) == None
      ensures forall k :: k != key ==> h.Get(k) == Get(k)
      ensures IsSubsequence(h.keys, keys)
    {
      DifferenceDistinct(keys, [key]);
      OrderedHash(Difference(keys, [key]), entries - {key})
    }
  }

  /** The empty hash `{}`. */
  const Empty := OrderedHash([], map[])

  /** `JSON.parse` of an object with these members, in document order:
      keys in the order they first appear, and a later member with the
      same name overwrites an earlier one. */
  function FromPairs(pairs: seq<(string, string)>): (h: OrderedHash)
    ensures h.Valid()
    ensures h.keys == Uniq(Map(PairKey, pairs))
    ensures h.entries == ToH(pairs)
  {
    if pairs == [] then Empty
    else
      var init, last := pairs[..|pairs| - 1], pairs[|pairs| - 1];
      var h := FromPairs(init);
      MapSnoc(PairKey, init, last);
      UniqSnoc(Map(PairKey, init), last.0);
      h.Put(last.0, last.1)
  }

  /** The answer to fetching the manifest object. */
  datatype FetchResult = Found(document: seq<(string, string)>) | NoSuchKey

  /** A request sent to the bucket. */
  datatype Request =
    | GetObject(bucket: string, key: string)
    | PutObject(bucket: string, key: string, body: OrderedHash, contentType: string)

  class RemovalManifest {
    const bucketName: string
    var loaded: bool
    var changed: bool
    var manifest: OrderedHash
    ghost var log: seq<Request>

    /** Nothing can change before the manifest is loaded. */
    ghost predicate Valid()
      reads this
    {
      manifest.Valid() && (!loaded ==> !changed && manifest == Empty)
    }

    /** A new manifest is not loaded, not changed and empty. */
    constructor(bucketName: string)
      ensures this.bucketName == bucketName
      ensures !loaded && !changed && manifest == Empty && log == []
      ensures Valid()
    {
      this.bucketName := bucketName;
      loaded := false;
      changed := false;
      manifest := Empty;
      log := [];
    }

    /** `loaded?`: an unloaded manifest is empty and unchanged. */
    function IsLoaded(): (r: bool)
      reads this
      ensures r == loaded
      ensures Valid() && !r ==> !IsChanged() && Keys() == []
    {
      loaded
    }

    /** `changed?`: only a loaded manifest can have changed. */
    function IsChanged(): (r: bool)
      reads this
      ensures r == changed
      ensures Valid() && r ==> loaded
    {
      changed
    }

    /** `load`: the first call fetches the manifest and installs it (an
        empty one when the object does not exist); later calls fetch
        nothing and keep the in-memory edits. Always answers true. */
    method Load(fetched: FetchResult) returns (r: bool)
      requires Valid()
      modifies this
      ensures Valid() && r && loaded && changed == old(changed)
      ensures old(loaded) ==> manifest == old(manifest) && log == old(log)
      ensures !old(loaded) ==> log == old(log) + [GetObject(bucketName, PATH)]
      ensures !old(loaded) && fetched.NoSuchKey? ==> manifest == Empty
      ensures !old(loaded) && fetched.Found? ==> manifest == FromPairs(fetched.document)
    {
      if loaded {
        return true;
      }
      log := log + [GetObject(bucketName, PATH)];
      match fetched {
        case Found(document) =>
          manifest := FromPairs(document);
        case NoSuchKey =>
          manifest := Empty;
      }
      loaded := true;
      r := true;
    }

    /** `save`: false before loading; true without writing when nothing
        changed; otherwise one write of the whole manifest under `PATH`,
        after which it counts as unchanged. The entries never change. */
    method Save() returns (r: bool)
      requires Valid()
      modifies this
      ensures Valid()
      ensures r == old(loaded)
      ensures loaded == old(loaded) && manifest == old(manifest) && !changed
      ensures old(loaded) && old(changed) ==>
        log == old(log) + [PutObject(bucketName, PATH, old(manifest), "application/json")]
      ensures !(old(loaded) && old(changed)) ==> log == old(log)
    {
      if !loaded {
        return false;
      }
      if !changed {
        return true;
      }
      log := log + [PutObject(bucketName, PATH, manifest, "application/json")];
      changed := false;
      r := true;
    }

    /** `keys`: the keys in insertion order, each once. */
    function Keys(): (r: seq<string>)
      requires Valid()
      reads this
      ensures Distinct(r)
      ensures forall k :: k in r <==> manifest.Get(k).Some?
    {
      manifest.keys
    }

    /** `delete(key)`: ignored before loading; afterwards the key is
        removed (present or not), the manifest counts as changed and the
        old value, or `nil`, is answered. */
    method Delete(key: string) returns (r: Option<string>)
      requires Valid()
      modifies this
      ensures Valid()
      ensures loaded == old(loaded) && log == old(log)
      ensures !old(loaded) ==> r.None? && manifest == old(manifest) && changed == old(changed)
      ensures old(loaded) ==> r == old(manifest).Get(key) && changed
      ensures old(loaded) ==> manifest == old(manifest).Remove(key)
    {
      if !loaded {
        return None;
      }
      changed := true;
      r := manifest.Get(key);
      manifest := manifest.Remove(key);
    }

    /** `[](key)`. */
    function Get(key: string): (r: Option<string>)
      reads this
      ensures r == manifest.Get(key)
    {
      manifest.Get(key)
    }

    /** `[]=(key, value)`: ignored before loading; afterwards the key is
        set and the manifest counts as changed. */
    method Store(key: string, value: string)
      requires Valid()
      modifies this
      ensures Valid()
      ensures loaded == old(loaded) && log == old(log)
      ensures !old(loaded) ==> manifest == old(manifest) && changed == old(changed)
      ensures old(loaded) ==> manifest == old(manifest).Put(key, value) && changed
    {
      if !loaded {
        return;
      }
      changed := true;
      manifest := manifest.Put(key, value);
    }

    /** `to_h`: the manifest itself. */
    function ToH(): (h: OrderedHash)
      reads this
      ensures h == manifest
    {
      manifest
    }
  }

  /** `spec/removal_manifest_spec.rb`: load installs the fetched document,
      a second load after an edit keeps the edit, and saving writes once. */
  method LoadEditSaveScenario(document: seq<(string, string)>, key: string, value: string)
    returns (keysAfterReload: seq<string>, stored: Option<string>, firstSave: bool, secondSave: bool,
             ghost requests: seq<Request>)
    requires key !in Map(PairKey, document)
    ensures keysAfterReload == Uniq(Map(PairKey, document)) + [key]
    ensures stored == Some(value)
    ensures firstSave && secondSave
    ensures requests == [GetObject("test-bucket", PATH),
                         PutObject("test-bucket", PATH, FromPairs(document).Put(key, value), "application/json")]
  {
    var m := new RemovalManifest("test-bucket");
    var ok := m.Load(Found(document));
    ghost var edited := FromPairs(document).Put(key, value);
    assert m.log == [GetObject("test-bucket", PATH)] && m.manifest == FromPairs(document);
    m.Store(key, value);
    assert m.manifest == edited && m.changed;
    ok := m.Load(Found([]));
    assert m.manifest == edited && m.changed;
    keysAfterReload, stored := m.Keys(), m.Get(key);
    firstSave := m.Save();
    assert m.log == [GetObject("test-bucket", PATH), PutObject("test-bucket", PATH, edited, "application/json")];
    secondSave := m.Save();
    requests := m.log;
  }
}
