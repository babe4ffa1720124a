/** `scons/godot.py`: subdirectory and asset enumeration for Godot projects. */
module Godot {
  import opened Wrappers
  import opened PyPath
  import opened Seqs
  import opened Walks

  /** The default `ignored_directories` of `_enumerate_subdirectories`. */
  const DefaultIgnored: seq<string> := ["bin", "obj"]

  const AssetExtensions: seq<string> := [
    ".tscn", ".escn", ".scn", ".tres", ".res", ".dae", ".obj", ".wav",
    ".ogg", ".png", ".tga", ".tif", ".jpg", ".ttf", ".font", ".import"
  ]

  /** How `enumerate_assets` ends when it does not return: the append names a
      list `headers` that is never defined. */
  datatype AssetError = UndefinedName(name: string)

  /** The asset filter: a non-empty `splitext` extension that is a substring
      of one of the asset extensions. */
  predicate IsAssetFile(name: string) {
    Extension(name) != [] && AnyContains(Extension(name), AssetExtensions)
  }

  // ----- Subdirectories ---------------------------------------------------------------------------

  /** `_enumerate_subdirectories(root_directory, ignored_directories)` with the
      listing and `os.path.isdir` given; callers that omit the ignore list pass
      `DefaultIgnored`. */
  method EnumerateSubdirectories(listing: seq<string>, isDir: string -> bool, ignored: seq<string>)
    returns (directories: seq<string>)
    ensures directories == Subdirectories(listing, isDir, ignored)
  {
    directories := ListSubdirectories(listing, isDir, ignored);
  }

  /** The result is an order-preserving sub-list of the listing, made of
      directories only. */
  lemma SubdirectoriesAreListedDirectories(listing: seq<string>, isDir: string -> bool, ignored: seq<string>)
    ensures IsSubsequence(Subdirectories(listing, isDir, ignored), listing)
    ensures forall e :: e in Subdirectories(listing, isDir, ignored) ==> isDir(e)
  {
    SubdirectoriesInOrder(listing, isDir, ignored);
    forall e | e in Subdirectories(listing, isDir, ignored) ensures isDir(e) {
      SubdirectoriesMembers(listing, isDir, ignored, e);
    }
  }

  /** The default ignore list is matched by substring: `bin`, `in`, `o` and
      `bj` are all dropped, while `binaries` and `src` are kept. */
  lemma DefaultIgnoredBySubstring()
    ensures AnyContains("bin", DefaultIgnored) && AnyContains("in", DefaultIgnored)
    ensures AnyContains("o", DefaultIgnored) && AnyContains("bj", DefaultIgnored)
    ensures !AnyContains("binaries", DefaultIgnored) && !AnyContains("src", DefaultIgnored)
  {
    assert "in" <= "bin"[1..] && "o" <= "obj" && "bj" <= "obj"[1..];
    assert "src"[0] != "bin"[0] && "src"[0] != "obj"[0];
  }

  /** Which directories of a listing survive the default ignore list. */
  lemma DefaultIgnoreEffect(listing: seq<string>, isDir: string -> bool)
    ensures "in" !in Subdirectories(listing, isDir, DefaultIgnored)
    ensures "bj" !in Subdirectories(listing, isDir, DefaultIgnored)
    ensures "binaries" in listing && isDir("binaries") ==> "binaries" in Subdirectories(listing, isDir, DefaultIgnored)
  {
    DefaultIgnoredBySubstring();
    SubdirectoriesMembers(listing, isDir, DefaultIgnored, "in");
    SubdirectoriesMembers(listing, isDir, DefaultIgnored, "bj");
    SubdirectoriesMembers(listing, isDir, DefaultIgnored, "binaries");
  }

  // ----- Assets -----------------------------------------------------------------------------------

  /** `enumerate_assets(project_directory, variant_directory)`. The loop runs
      until the first file that passes the filter; appending it to the
      undefined `headers` raises, whatever the variant. Without such a file
      the empty `assets` list comes back. */
  method EnumerateAssets(walk: Walk, variant: Option<string>) returns (r: Result<seq<string>, AssetError>)
    ensures r.Failure? <==> exists f :: f in Files(walk) && IsAssetFile(f.name)
    ensures r.Failure? ==> r.error == UndefinedName("headers")
    ensures r.Success? ==> r.value == []
  {
    var found := FindAccepted(walk, IsAssetFile);
    if found.Some? {
      return Failure(UndefinedName("headers"));
    }
    return Success([]);
  }

  /** A file passes exactly when its extension is non-empty and a prefix of one
      of the asset extensions. */
  lemma AssetFilterExact(name: string)
    ensures IsAssetFile(name) <==>
      Extension(name) != [] && exists e :: e in AssetExtensions && Extension(name) <= e
  {
    ContainmentIsPrefix(Extension(name), AssetExtensions);
  }

  /** Files without an extension never pass. */
  lemma ExtensionlessRejected(name: string)
    requires ExtSep !in name
    ensures !IsAssetFile(name)
  {
    SplitExtNoDot(name);
  }

  /** A name made of a plain stem and a non-empty prefix of an asset
      extension is an asset. */
  lemma AssetByPrefix(stem: string, ext: string, listed: string)
    requires Sep !in stem && |stem| > 0 && stem[0] != ExtSep
    requires |ext| > 0 && IsExtension(ext)
    requires listed in AssetExtensions && ext <= listed
    ensures IsAssetFile(stem + ext)
  {
    SplitExtOf(stem, ext);
    AssetFilterExact(stem + ext);
  }

  /** A truncated extension passes: `a.t` is taken for an asset. */
  lemma TruncatedExtensionPasses()
    ensures IsAssetFile("a.t")
  {
    assert ".t" <= AssetExtensions[0];
    AssetByPrefix("a", ".t", AssetExtensions[0]);
    assert "a" + ".t" == "a.t";
  }

  /** So does `a.im`, a prefix of `.import`. */
  lemma TruncatedImportPasses()
    ensures IsAssetFile("a.im")
  {
    assert ".im" <= AssetExtensions[15];
    AssetByPrefix("a", ".im", AssetExtensions[15]);
    assert "a" + ".im" == "a.im";
  }

  /** A bare trailing dot passes too: `a.` is taken for an asset. */
  lemma TrailingDotPasses()
    ensures IsAssetFile("a.")
  {
    assert "." <= AssetExtensions[9];
    AssetByPrefix("a", ".", AssetExtensions[9]);
    assert "a" + "." == "a.";
  }

  /** A scene file is an asset. */
  lemma SceneFileIsAsset(stem: string)
    requires Sep !in stem && |stem| > 0 && stem[0] != ExtSep
    ensures IsAssetFile(stem + ".tscn")
  {
    assert IsExtension(".tscn");
    AssetByPrefix(stem, ".tscn", AssetExtensions[0]);
  }

  /** A walk holding a scene file makes the enumeration fail. */
  lemma SceneFileFails(root: string, stem: string)
    requires Sep !in stem && |stem| > 0 && stem[0] != ExtSep
    ensures exists f :: f in Files([WalkStep(root, [stem + ".tscn"])]) && IsAssetFile(f.name)
  {
    var scene := FileRef(root, stem + ".tscn");
    var w := [WalkStep(root, [scene.name])];
    assert w[..0] == [];
    assert Files(w) == [] + [scene];
    SceneFileIsAsset(stem);
    assert scene in Files(w);
  }

  /** A walk in which no file name has a dot returns the empty list. */
  lemma ExtensionlessWalkSucceeds(walk: Walk)
    requires forall i, name :: 0 <= i < |walk| && name in walk[i].fileNames ==> ExtSep !in name
    ensures forall f :: f in Files(walk) ==> !IsAssetFile(f.name)
  {
    forall f | f in Files(walk) ensures !IsAssetFile(f.name) {
      FilesMembers(walk, f);
      ExtensionlessRejected(f.name);
    }
  }

  // ----- The asset list as intended ---------------------------------------------------------------

  /** `enumerate_assets` with the evident intent restored: the paths are
      appended to `assets`, the list that is returned. */
  method EnumerateAssetsIntended(walk: Walk, variant: Option<string>) returns (assets: seq<string>)
    ensures assets == Collect(walk, IsAssetFile, variant)
  {
    assets := CollectPaths(walk, IsAssetFile, variant);
  }

  /** The intended list holds a path exactly for each walked asset file, in
      walk order, and nothing else. */
  lemma IntendedAssetsExact(walk: Walk, variant: Option<string>, p: string)
    ensures p in Collect(walk, IsAssetFile, variant) <==>
      exists f :: f in Files(walk) && IsAssetFile(f.name) && p == EntryPath(variant, f.root, f.name)
    ensures IsSubsequence(Collect(walk, IsAssetFile, variant), Collect(walk, AnyFile, variant))
  {
    KeptMembers(Files(walk), IsAssetFile, variant, p);
    KeptMonotone(Files(walk), IsAssetFile, AnyFile, variant);
  }

  /** Where the code as written fails on a scene file, the intended version
      lists it. */
  lemma IntendedSceneFileListed(root: string, stem: string)
    requires Sep !in stem && |stem| > 0 && stem[0] != ExtSep
    ensures Collect([WalkStep(root, [stem + ".tscn"])], IsAssetFile, None) == [Join(root, stem + ".tscn")]
  {
    var scene := FileRef(root, stem + ".tscn");
    var w := [WalkStep(root, [scene.name])];
    assert w[..0] == [];
    assert Files(w) == [] + [scene];
    SceneFileIsAsset(stem);
    assert [scene][..0] == [];
    assert Kept([scene], IsAssetFile, None) == [] + [Join(root, scene.name)];
  }
}
