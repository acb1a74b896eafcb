/**
 * `S3AssetDeploy::AssetHelper`: the fingerprint pattern
 *   \A(.*)-([[:alnum:]]+)((?:\.[[:alnum:]]+)+)\z
 * that turns a fingerprinted key into its logical name, and the
 * `.map` override of the content-type lookup.
 *
 * The pattern is modelled by the decomposition it matches, `Matches`;
 * `Split` finds that decomposition directly (the last hyphen, then the
 * first dot after it) and `SplitIsTheMatch` proves the two agree, so the
 * match is unique and the greedy `(.*)` does not have to be simulated.
 */
module AssetHelper {
  import opened Wrappers

  /** `[[:alnum:]]`, read as the ASCII letters and digits. */
  predicate IsAlnum(c: char) {
    'a' <= c <= 'z' || 'A' <= c <= 'Z' || '0' <= c <= '9'
  }

  /** `(.*)`: Ruby's `.` matches every character but a newline. */
  predicate NoNewline(s: string) {
    forall i :: 0 <= i < |s| ==> s[i] != '\n'
  }

  /** `([[:alnum:]]+)`: the fingerprint token. */
  predicate IsFingerprint(s: string) {
    |s| > 0 && forall i :: 0 <= i < |s| ==> IsAlnum(s[i])
  }

  /** `((?:\.[[:alnum:]]+)+)`: one or more extensions. The text starts
      with a dot, and each character is a letter or digit, or a dot
      followed by a letter or digit. */
  predicate IsExtensions(s: string) {
    && |s| > 0 && s[0] == '.'
    && forall i :: 0 <= i < |s| ==> IsExtensionChar(s, i)
  }

  /** Character `i` of an extension run: a letter or digit, or a dot
      followed by a letter or digit. */
  predicate IsExtensionChar(s: string, i: nat)
    requires i < |s|
  {
    IsAlnum(s[i]) || (s[i] == '.' && i + 1 < |s| && IsAlnum(s[i + 1]))
  }

  /** The three capture groups of a match. */
  datatype Parts = Parts(base: string, fingerprint: string, extensions: string)

  /** `key` matches the pattern with these capture groups. */
  ghost predicate Matches(key: string, p: Parts) {
    && key == p.base + "-" + p.fingerprint + p.extensions
    && NoNewline(p.base)
    && IsFingerprint(p.fingerprint)
    && IsExtensions(p.extensions)
  }

  /** Position of the last `c` in `s`. */
  function LastIndexOf(s: string, c: char): (r: Option<nat>)
    ensures r.Some? ==> r.value < |s| && s[r.value] == c && c !in s[r.value + 1..]
    ensures r.None? ==> c !in s
  {
    if s == [] then None
    else if s[|s| - 1] == c then Some(|s| - 1)
    else
      var r := LastIndexOf(s[..|s| - 1], c);
      assert s == s[..|s| - 1] + [s[|s| - 1]];
      assert r.Some? ==> s[r.value + 1..] == s[..|s| - 1][r.value + 1..] + [s[|s| - 1]];
      r
  }

  /** Position of the first `c` in `s`. */
  function IndexOf(s: string, c: char): (r: Option<nat>)
    ensures r.Some? ==> r.value < |s| && s[r.value] == c && c !in s[..r.value]
    ensures r.None? ==> c !in s
  {
    if s == [] then None
    else if s[0] == c then Some(0)
    else
      match IndexOf(s[1..], c)
      case None => None
      case Some(i) =>
        assert s[..i + 1] == [s[0]] + s[1..][..i];
        Some(i + 1)
  }

  /** The capture groups of `key`, or `None` when the pattern does not
      match. A tail made of letters, digits and dots holds no hyphen, so
      the hyphen of a match is the last one in the key; a fingerprint
      holds no dot, so the extensions start at the first dot after it. */
  function Split(key: string): Option<Parts>
  {
    match LastIndexOf(key, '-')
    case None => None
    case Some(h) =>
      var tail := key[h + 1..];
      match IndexOf(tail, '.')
      case None => None
      case Some(d) =>
        var p := Parts(key[..h], tail[..d], tail[d..]);
        if NoNewline(p.base) && IsFingerprint(p.fingerprint) && IsExtensions(p.extensions)
        then Some(p) else None
  }

  /** A fingerprint followed by extensions holds no hyphen. */
  lemma NoHyphenInTail(p: Parts)
    requires IsFingerprint(p.fingerprint) && IsExtensions(p.extensions)
    ensures '-' !in p.fingerprint + p.extensions
  {
    var t := p.fingerprint + p.extensions;
    forall i | 0 <= i < |t| ensures t[i] != '-' {
      if i < |p.fingerprint| {
        assert t[i] == p.fingerprint[i] && IsAlnum(p.fingerprint[i]);
      } else {
        var j := i - |p.fingerprint|;
        assert t[i] == p.extensions[j];
        assert IsExtensionChar(p.extensions, j);
      }
    }
  }

  /** The hyphen of a match is the last hyphen of the key. */
  lemma LastHyphenOfMatch(key: string, p: Parts)
    requires Matches(key, p)
    ensures LastIndexOf(key, '-') == Some(|p.base|)
  {
    var t := p.fingerprint + p.extensions;
    assert key == p.base + "-" + t;
    assert key[|p.base|] == '-';
    NoHyphenInTail(p);
  }

  /** The extensions of a match start at the first dot after the hyphen. */
  lemma FirstDotOfTail(p: Parts)
    requires IsFingerprint(p.fingerprint) && IsExtensions(p.extensions)
    ensures IndexOf(p.fingerprint + p.extensions, '.') == Some(|p.fingerprint|)
  {
    var t := p.fingerprint + p.extensions;
    assert t[|p.fingerprint|] == '.';
  }

  /** Every decomposition `Split` returns is a match. */
  lemma SplitIsSound(key: string)
    requires Split(key).Some?
    ensures Matches(key, Split(key).value)
  {
    var h := LastIndexOf(key, '-').value;
    var tail := key[h + 1..];
    var d := IndexOf(tail, '.').value;
    assert key == key[..h] + "-" + tail[..d] + tail[d..];
  }

  /** Every match is the decomposition `Split` returns. */
  lemma SplitIsComplete(key: string, p: Parts)
    requires Matches(key, p)
    ensures Split(key) == Some(p)
  {
    LastHyphenOfMatch(key, p);
    var t := p.fingerprint + p.extensions;
    assert key[|p.base| + 1..] == t;
    FirstDotOfTail(p);
    assert t[..|p.fingerprint|] == p.fingerprint && t[|p.fingerprint|..] == p.extensions;
    assert key[..|p.base|] == p.base;
  }

  /** `Split` returns exactly the decomposition the pattern matches: the
      match, when there is one, is unique. */
  lemma SplitIsTheMatch(key: string, p: Parts)
    ensures Split(key) == Some(p) <==> Matches(key, p)
  {
    if Split(key) == Some(p) {
      SplitIsSound(key);
    }
    if Matches(key, p) {
      SplitIsComplete(key, p);
    }
  }

  /** `Split` fails exactly on the keys the pattern does not match. */
  lemma SplitFailsWithoutMatch(key: string)
    ensures Split(key).None? <==> forall p :: !Matches(key, p)
  {
    if Split(key).Some? {
      SplitIsSound(key);
    } else {
      forall p ensures !Matches(key, p) {
        if Matches(key, p) {
          SplitIsComplete(key, p);
        }
      }
    }
  }

  /** `AssetHelper.remove_fingerprint`: the key with its fingerprint
      segment removed, or the key itself when the pattern does not match. */
  function RemoveFingerprint(path: string): (r: string)
    ensures forall p {:trigger Matches(path, p)} :: Matches(path, p) ==> r == p.base + p.extensions
  {
    SplitAgreesWithMatches(path);
    match Split(path)
    case Some(p) => p.base + p.extensions
    case None => path
  }

  /** On a match the result is group 1 followed by group 3. */
  lemma LogicalNameOfMatch(key: string, p: Parts)
    requires Matches(key, p)
    ensures RemoveFingerprint(key) == p.base + p.extensions
  {
  }

  /** `Split` agrees with every candidate decomposition at once. */
  lemma SplitAgreesWithMatches(key: string)
    ensures forall p :: Split(key) == Some(p) <==> Matches(key, p)
  {
    forall p ensures Split(key) == Some(p) <==> Matches(key, p) {
      SplitIsTheMatch(key, p);
    }
  }

  /** Only the last hyphen segment goes: the result keeps everything
      before the last hyphen (earlier hyphens and tildes included) and is
      shorter than the key by the hyphen and at least one character. */
  lemma RemoveFingerprintDropsLastSegment(key: string, p: Parts)
    requires Matches(key, p)
    ensures LastIndexOf(key, '-') == Some(|p.base|)
    ensures RemoveFingerprint(key) == key[..|p.base|] + p.extensions
    ensures |RemoveFingerprint(key)| <= |key| - 2
  {
    SplitIsTheMatch(key, p);
    assert key[..|p.base|] == p.base;
  }

  /** A key without a hyphen does not match, and is left alone. */
  lemma RemoveFingerprintWithoutHyphen(key: string)
    requires '-' !in key
    ensures forall p :: !Matches(key, p)
    ensures RemoveFingerprint(key) == key
  {
    forall p ensures !Matches(key, p) {
    }
    RemoveFingerprintWithoutMatch(key);
  }

  /** A path the pattern does not match comes back unchanged. */
  lemma RemoveFingerprintWithoutMatch(path: string)
    requires forall p :: !Matches(path, p)
    ensures RemoveFingerprint(path) == path
  {
    SplitFailsWithoutMatch(path);
  }

  /** The file name of a path, as `File.basename` gives it: trailing
      slashes are ignored and the name follows the last slash. */
  function Basename(path: string): (name: string)
    ensures '/' !in name
    decreases |path|
  {
    if path != [] && path[|path| - 1] == '/' then Basename(path[..|path| - 1])
    else
      match LastIndexOf(path, '/')
      case None => path
      case Some(i) => path[i + 1..]
  }

  /** The name without its leading dots (a dot file has no extension). */
  function DropLeadingDots(name: string): (r: string)
    ensures |r| <= |name| && r == name[|name| - |r|..]
    ensures forall i :: 0 <= i < |name| - |r| ==> name[i] == '.'
    ensures r != [] ==> r[0] != '.'
  {
    if name != [] && name[0] == '.' then DropLeadingDots(name[1..]) else name
  }

  /** The extension of a file name without leading dots: from its last
      dot; "." when that dot ends the name; empty without a dot. */
  function LastExtension(name: string): (e: string)
    ensures e == [] || e[0] == '.'
  {
    match LastIndexOf(name, '.')
    case None => ""
    case Some(d) => if d == |name| - 1 then "." else name[d..]
  }

  /** Ruby `File.extname(path)`: the extension of the file name, its
      leading dots not counted. */
  function Extname(path: string): (e: string)
    ensures e == [] || e[0] == '.'
  {
    LastExtension(DropLeadingDots(Basename(path)))
  }

  /** `mime_type_for_path`, only as far as this model goes: "application/json"
      when `File.extname(path)[1..-1]` is "map"; `None` stands for the
      MIME type table, which is not part of this model. */
  function MimeTypeForPath(path: string): Option<string>
  {
    var ext := Extname(path);
    var extension := if ext == "" then None else Some(ext[1..]);
    if extension == Some("map") then Some("application/json") else None
  }

  /** A file name ending in `.map` with something other than dots before
      it: `File.extname` skips the leading dots of a name, so `..map` has no
      extension while `.x.map` has `.map`. */
  ghost predicate IsSourceMapName(name: string) {
    && |name| >= 4 && name[|name| - 4..] == ".map"
    && exists i :: 0 <= i < |name| - 4 && name[i] != '.'
  }

  /** The JSON override applies to exactly the paths whose file name is a
      source map name, and it answers "application/json". */
  lemma JsonExactlyForSourceMaps(path: string)
    ensures MimeTypeForPath(path).Some? <==> IsSourceMapName(Basename(path))
    ensures MimeTypeForPath(path).Some? ==> MimeTypeForPath(path).value == "application/json"
  {
    MimeIsMapExtension(path);
    assert Extname(path) == LastExtension(DropLeadingDots(Basename(path)));
    LastExtensionIsMap(DropLeadingDots(Basename(path)));
    LeadingDotsOfSourceMapName(Basename(path));
  }

  /** The override answers exactly for the extension ".map". */
  lemma MimeIsMapExtension(path: string)
    ensures MimeTypeForPath(path).Some? <==> Extname(path) == ".map"
    ensures MimeTypeForPath(path).Some? ==> MimeTypeForPath(path).value == "application/json"
  {
  }

  /** A name's last extension is ".map" exactly when it ends in ".map". */
  lemma LastExtensionIsMap(name: string)
    ensures LastExtension(name) == ".map" <==> |name| >= 4 && name[|name| - 4..] == ".map"
  {
    if |name| >= 4 && name[|name| - 4..] == ".map" {
      assert name == name[..|name| - 3] + "map";
      LastIndexOfJoin(name[..|name| - 3], "map", '.');
    }
    if LastExtension(name) == ".map" {
      var d := LastIndexOf(name, '.').value;
      assert name[d..] == ".map";
    }
  }

  /** A name is a source map name exactly when it still ends in ".map"
      once its leading dots are gone. */
  lemma LeadingDotsOfSourceMapName(full: string)
    ensures var name := DropLeadingDots(full);
      IsSourceMapName(full) <==> |name| >= 4 && name[|name| - 4..] == ".map"
  {
    var name := DropLeadingDots(full);
    var k := |full| - |name|;
    if IsSourceMapName(full) {
      var i :| 0 <= i < |full| - 4 && full[i] != '.';
      assert k <= i;
      assert name[|name| - 4..] == full[|full| - 4..];
    }
    if |name| >= 4 && name[|name| - 4..] == ".map" {
      assert name[0] != '.' && full[k] == name[0];
      assert full[|full| - 4..] == name[|name| - 4..];
    }
  }

  /** The last `c` of `a + b`, when `a` ends with `c` and `b` holds none. */
  lemma LastIndexOfJoin(a: string, b: string, c: char)
    requires a != [] && a[|a| - 1] == c && c !in b
    ensures LastIndexOf(a + b, c) == Some(|a| - 1)
  {
    assert (a + b)[|a| - 1] == c;
  }

  /** A file `<stem>.map`, in any directory, gets the JSON content type
      whenever its stem is not made of dots only. */
  lemma SourceMapIsJson(dir: string, stem: string)
    requires dir == [] || dir[|dir| - 1] == '/'
    requires '/' !in stem && exists i :: 0 <= i < |stem| && stem[i] != '.'
    ensures MimeTypeForPath(dir + stem + ".map") == Some("application/json")
  {
    var path := dir + stem + ".map";
    assert path == dir + (stem + ".map");
    BasenameAfterDirectory(dir, stem + ".map");
    StemMapIsSourceMapName(stem);
    JsonExactlyForSourceMaps(path);
  }

  /** `<stem>.map` is a source map name when the stem is not all dots. */
  lemma StemMapIsSourceMapName(stem: string)
    requires exists i :: 0 <= i < |stem| && stem[i] != '.'
    ensures IsSourceMapName(stem + ".map")
  {
    var name := stem + ".map";
    var i :| 0 <= i < |stem| && stem[i] != '.';
    assert name[i] == stem[i] && name[|name| - 4..] == ".map";
  }

  /** The file name of `<dir><name>` is `name`. */
  lemma BasenameAfterDirectory(dir: string, name: string)
    requires dir == [] || dir[|dir| - 1] == '/'
    requires '/' !in name && name != []
    ensures Basename(dir + name) == name
  {
    if dir == [] {
      assert dir + name == name;
    } else {
      LastIndexOfJoin(dir, name, '/');
    }
  }

  /** Inserting a fingerprint segment before the extensions of a logical
      name and removing it again gives the logical name back. */
  lemma RemoveInsertedFingerprint(base: string, fingerprint: string, extensions: string)
    requires NoNewline(base) && IsFingerprint(fingerprint) && IsExtensions(extensions)
    ensures RemoveFingerprint(base + "-" + fingerprint + extensions) == base + extensions
  {
    assert Matches(base + "-" + fingerprint + extensions, Parts(base, fingerprint, extensions));
  }

  /** `spec/asset_helper_spec.rb`: a key with two extensions. */
  lemma ChunkExampleTokens()
    ensures NoNewline("packs/js/0") && IsFingerprint("3e1f1b9c14ca587bae85") && IsExtensions(".chunk.js")
  {
  }

  lemma ChunkExampleMatches()
    ensures Matches("packs/js/0-3e1f1b9c14ca587bae85.chunk.js", Parts("packs/js/0", "3e1f1b9c14ca587bae85", ".chunk.js"))
  {
    ChunkExampleTokens();
    assert "packs/js/0-3e1f1b9c14ca587bae85.chunk.js" == "packs/js/0" + "-" + ("3e1f1b9c14ca587bae85" + ".chunk.js");
  }

  lemma ChunkExampleLogicalName()
    ensures RemoveFingerprint("packs/js/0-3e1f1b9c14ca587bae85.chunk.js") == "packs/js/0" + ".chunk.js"
  {
    ChunkExampleMatches();
    LogicalNameOfMatch("packs/js/0-3e1f1b9c14ca587bae85.chunk.js", Parts("packs/js/0", "3e1f1b9c14ca587bae85", ".chunk.js"));
  }

  /** `spec/asset_helper_spec.rb`: hyphens inside the logical name stay. */
  lemma BundleExampleTokens()
    ensures NoNewline("packs/js/pdf-post-previews-bundle") && IsFingerprint("c574a9fdf0c69f19cce8") && IsExtensions(".chunk.js")
  {
  }

  lemma BundleExampleMatches()
    ensures Matches("packs/js/pdf-post-previews-bundle-c574a9fdf0c69f19cce8.chunk.js", Parts("packs/js/pdf-post-previews-bundle", "c574a9fdf0c69f19cce8", ".chunk.js"))
  {
    BundleExampleTokens();
    assert "packs/js/pdf-post-previews-bundle-c574a9fdf0c69f19cce8.chunk.js" == "packs/js/pdf-post-previews-bundle" + "-" + ("c574a9fdf0c69f19cce8" + ".chunk.js");
  }

  lemma BundleExampleLogicalName()
    ensures RemoveFingerprint("packs/js/pdf-post-previews-bundle-c574a9fdf0c69f19cce8.chunk.js") == "packs/js/pdf-post-previews-bundle" + ".chunk.js"
  {
    BundleExampleMatches();
    LogicalNameOfMatch("packs/js/pdf-post-previews-bundle-c574a9fdf0c69f19cce8.chunk.js", Parts("packs/js/pdf-post-previews-bundle", "c574a9fdf0c69f19cce8", ".chunk.js"));
  }

  /** `spec/asset_helper_spec.rb`: a source map whose name holds a tilde. */
  lemma SourceMapExampleTokens()
    ensures NoNewline("packs/js/runtime~mobile-bundle") && IsFingerprint("298e884ee611bb56b6ca") && IsExtensions(".js.map")
  {
  }

  lemma SourceMapExampleMatches()
    ensures Matches("packs/js/runtime~mobile-bundle-298e884ee611bb56b6ca.js.map", Parts("packs/js/runtime~mobile-bundle", "298e884ee611bb56b6ca", ".js.map"))
  {
    SourceMapExampleTokens();
    assert "packs/js/runtime~mobile-bundle-298e884ee611bb56b6ca.js.map" == "packs/js/runtime~mobile-bundle" + "-" + ("298e884ee611bb56b6ca" + ".js.map");
  }

  lemma SourceMapExampleLogicalName()
    ensures RemoveFingerprint("packs/js/runtime~mobile-bundle-298e884ee611bb56b6ca.js.map") == "packs/js/runtime~mobile-bundle" + ".js.map"
  {
    SourceMapExampleMatches();
    LogicalNameOfMatch("packs/js/runtime~mobile-bundle-298e884ee611bb56b6ca.js.map", Parts("packs/js/runtime~mobile-bundle", "298e884ee611bb56b6ca", ".js.map"));
  }

  /** `spec/asset_helper_spec.rb`: a key without a fingerprint is unchanged. */
  lemma UnfingerprintedExample()
    ensures RemoveFingerprint("packs/js/0.chunk.js") == "packs/js/0.chunk.js"
  {
    UnfingerprintedHasNoHyphen();
    RemoveFingerprintWithoutHyphen("packs/js/0.chunk.js");
  }

  lemma UnfingerprintedHasNoHyphen()
    ensures '-' !in "packs/js/0.chunk.js"
  {
  }
}
