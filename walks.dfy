/** Directory walks and listings as data, and the specification that every
    file enumerator of the build scripts is proved against.

    A walk is what `os.walk(top)` yields, reduced to what the enumerators use:
    for each visited directory, its path (`root`) and the names of the files
    directly in it, in the order the walk produced them. */
module Walks {
  import opened Wrappers
  import opened PyPath
  import opened Seqs

  datatype WalkStep = WalkStep(root: string, fileNames: seq<string>)

  type Walk = seq<WalkStep>

  /** One walked file: the directory it was found in and its name. */
  datatype FileRef = FileRef(root: string, name: string)

  /** The files of one walk step, in listing order. */
  function DirFiles(step: WalkStep): (r: seq<FileRef>)
    ensures |r| == |step.fileNames|
    ensures forall k :: 0 <= k < |r| ==> r[k] == FileRef(step.root, step.fileNames[k])
  {
    seq(|step.fileNames|, k requires 0 <= k < |step.fileNames| => FileRef(step.root, step.fileNames[k]))
  }

  /** All files of a walk: directories in walk order, names in listing order. */
  function Files(walk: Walk): seq<FileRef>
  {
    if walk == [] then [] else Files(walk[..|walk| - 1]) + DirFiles(walk[|walk| - 1])
  }

  /** The number of files a walk reports. */
  function FileCount(walk: Walk): nat
  {
    if walk == [] then 0 else FileCount(walk[..|walk| - 1]) + |walk[|walk| - 1].fileNames|
  }

  /** Python truthiness of an optional string: `None` and `''` are false. */
  predicate Truthy(v: Option<string>) {
    v.Some? && v.value != []
  }

  /** The variant an `if variant_directory:` script effectively applies. */
  function TruthyVariant(v: Option<string>): (r: Option<string>)
    ensures r.Some? <==> Truthy(v)
    ensures r.Some? ==> r == v
  {
    if Truthy(v) then v else None
  }

  /** The path recorded for a walked file: `join(root, name)`, or
      `join(variant, join(root, name))` when a variant directory is applied. */
  function EntryPath(variant: Option<string>, root: string, name: string): string
  {
    match variant
    case None => Join(root, name)
    case Some(v) => Join(v, Join(root, name))
  }

  /** The paths recorded for the files that `keep` accepts, in order, one per
      accepted file. */
  function Kept(files: seq<FileRef>, keep: string -> bool, variant: Option<string>): seq<string>
  {
    if files == [] then []
    else
      var f := files[|files| - 1];
      Kept(files[..|files| - 1], keep, variant)
        + (if keep(f.name) then [EntryPath(variant, f.root, f.name)] else [])
  }

  /** What an enumerator with filter `keep` returns for a walk. */
  function Collect(walk: Walk, keep: string -> bool, variant: Option<string>): seq<string>
  {
    Kept(Files(walk), keep, variant)
  }

  /** Accepts every file (the unfiltered asset enumeration). */
  predicate AnyFile(name: string) {
    true
  }

  // ----- Structure of Files and Kept -------------------------------------------------------------

  lemma {:induction false} FilesCount(walk: Walk)
    ensures |Files(walk)| == FileCount(walk)
    decreases |walk|
  {
    if walk != [] {
      FilesCount(walk[..|walk| - 1]);
    }
  }

  /** A walked file is one of the walk's files exactly when some walk step
      lists its name under its root. */
  lemma {:induction false} FilesMembers(walk: Walk, f: FileRef)
    ensures f in Files(walk) <==>
      exists i :: 0 <= i < |walk| && walk[i].root == f.root && f.name in walk[i].fileNames
    decreases |walk|
  {
    if walk != [] {
      var w' := walk[..|walk| - 1];
      var last := walk[|walk| - 1];
      FilesMembers(w', f);
      if f in DirFiles(last) {
        var k :| 0 <= k < |DirFiles(last)| && DirFiles(last)[k] == f;
        assert last.fileNames[k] == f.name;
      }
      if f.root == last.root && f.name in last.fileNames {
        var k :| 0 <= k < |last.fileNames| && last.fileNames[k] == f.name;
        assert DirFiles(last)[k] == f;
      }
      forall i | 0 <= i < |w'| ensures w'[i] == walk[i] { }
    }
  }

  /** Kept distributes over concatenation: results come in file order. */
  lemma {:induction false} KeptAppend(a: seq<FileRef>, b: seq<FileRef>, keep: string -> bool, variant: Option<string>)
    ensures Kept(a + b, keep, variant) == Kept(a, keep, variant) + Kept(b, keep, variant)
    decreases |b|
  {
    if b == [] {
      assert a + b == a;
    } else {
      var b' := b[..|b| - 1];
      assert (a + b)[..|a + b| - 1] == a + b';
      KeptAppend(a, b', keep, variant);
    }
  }

  /** One more walk step adds exactly the accepted files of that step. */
  lemma CollectStep(walk: Walk, i: nat, keep: string -> bool, variant: Option<string>)
    requires i < |walk|
    ensures Collect(walk[..i + 1], keep, variant)
         == Collect(walk[..i], keep, variant) + Kept(DirFiles(walk[i]), keep, variant)
  {
    var w := walk[..i + 1];
    assert w[..|w| - 1] == walk[..i];
    assert Files(w) == Files(walk[..i]) + DirFiles(walk[i]);
    KeptAppend(Files(walk[..i]), DirFiles(walk[i]), keep, variant);
  }

  /** One more file name adds its path exactly when `keep` accepts it. */
  lemma DirStep(root: string, names: seq<string>, j: nat, keep: string -> bool, variant: Option<string>)
    requires j < |names|
    ensures Kept(DirFiles(WalkStep(root, names[..j + 1])), keep, variant)
         == Kept(DirFiles(WalkStep(root, names[..j])), keep, variant)
            + (if keep(names[j]) then [EntryPath(variant, root, names[j])] else [])
  {
    var d := DirFiles(WalkStep(root, names[..j + 1]));
    assert d[..|d| - 1] == DirFiles(WalkStep(root, names[..j]));
  }

  // ----- What an enumerator returns ---------------------------------------------------------------

  /** A path is returned exactly when some accepted file records it. */
  lemma {:induction false} KeptMembers(files: seq<FileRef>, keep: string -> bool, variant: Option<string>, p: string)
    ensures p in Kept(files, keep, variant) <==>
      exists f :: f in files && keep(f.name) && p == EntryPath(variant, f.root, f.name)
    decreases |files|
  {
    if files != [] {
      var init := files[..|files| - 1];
      var f := files[|files| - 1];
      var tail := if keep(f.name) then [EntryPath(variant, f.root, f.name)] else [];
      assert Kept(files, keep, variant) == Kept(init, keep, variant) + tail;
      KeptMembers(init, keep, variant, p);
      assert forall g :: g in files <==> g in init || g == f by {
        assert files == init + [f];
      }
    }
  }

  /** At most one path per file. */
  lemma {:induction false} KeptLength(files: seq<FileRef>, keep: string -> bool, variant: Option<string>)
    ensures |Kept(files, keep, variant)| <= |files|
    ensures (forall f :: f in files ==> keep(f.name)) ==> |Kept(files, keep, variant)| == |files|
    decreases |files|
  {
    if files != [] {
      var init := files[..|files| - 1];
      KeptLength(init, keep, variant);
      assert forall f :: f in init ==> f in files;
    }
  }

  /** A walk is enumerated to at most as many paths as it has files, and a walk
      without files to nothing. */
  lemma CollectBound(walk: Walk, keep: string -> bool, variant: Option<string>)
    ensures |Collect(walk, keep, variant)| <= FileCount(walk)
    ensures FileCount(walk) == 0 ==> Collect(walk, keep, variant) == []
  {
    FilesCount(walk);
    KeptLength(Files(walk), keep, variant);
  }

  /** A weaker filter returns a superset, in the same relative order. */
  lemma {:induction false} KeptMonotone(files: seq<FileRef>, keep: string -> bool, wider: string -> bool, variant: Option<string>)
    requires forall n :: keep(n) ==> wider(n)
    ensures IsSubsequence(Kept(files, keep, variant), Kept(files, wider, variant))
    decreases |files|
  {
    if files != [] {
      var init := files[..|files| - 1];
      var f := files[|files| - 1];
      KeptMonotone(init, keep, wider, variant);
      var a, b := Kept(init, keep, variant), Kept(init, wider, variant);
      var x := EntryPath(variant, f.root, f.name);
      if keep(f.name) {
        SubsequenceAppendBoth(a, b, x);
      } else if wider(f.name) {
        assert Kept(files, keep, variant) == a + [] == a;
        assert Kept(files, wider, variant) == b + [x];
        SubsequenceAppendRight(a, b, x);
      } else {
        assert Kept(files, keep, variant) == a + [] == a;
        assert Kept(files, wider, variant) == b + [] == b;
      }
    }
  }

  /** With a filter that accepts everything, every file contributes its path,
      in order. */
  lemma {:induction false} KeptAll(files: seq<FileRef>, variant: Option<string>)
    ensures |Kept(files, AnyFile, variant)| == |files|
    ensures forall k :: 0 <= k < |files| ==>
      Kept(files, AnyFile, variant)[k] == EntryPath(variant, files[k].root, files[k].name)
    decreases |files|
  {
    if files != [] {
      var init := files[..|files| - 1];
      KeptAll(init, variant);
      var f := files[|files| - 1];
      var kept := Kept(files, AnyFile, variant);
      assert kept == Kept(init, AnyFile, variant) + [EntryPath(variant, f.root, f.name)];
      forall k | 0 <= k < |files|
        ensures kept[k] == EntryPath(variant, files[k].root, files[k].name)
      {
        if k < |init| {
          assert files[k] == init[k];
        }
      }
    }
  }

  // ----- Variant directories ---------------------------------------------------------------------

  /** A variant directory is prepended to the whole walked path (the walked
      top directory included), with one separator between the parts. */
  lemma VariantPrepended(v: string, root: string, name: string)
    requires v != [] && v[|v| - 1] != Sep
    requires root != [] && !IsAbsolute(root) && root[|root| - 1] != Sep
    requires !IsAbsolute(name)
    ensures EntryPath(None, root, name) == root + [Sep] + name
    ensures EntryPath(Some(v), root, name) == v + [Sep] + root + [Sep] + name
  {
    assert (root + [Sep] + name)[0] == root[0];
  }

  /** An absolute walked root makes `join` drop the variant directory. */
  lemma AbsoluteRootDropsVariant(v: string, root: string, name: string)
    requires IsAbsolute(root)
    ensures EntryPath(Some(v), root, name) == EntryPath(None, root, name)
  {
  }

  /** Applying only a truthy variant changes no recorded path: a falsy
      variant is either absent or empty, and `join('', p)` is `p`. Doing it
      twice is the same as doing it once. */
  lemma TruthyVariantPaths(v: Option<string>, root: string, name: string)
    ensures TruthyVariant(TruthyVariant(v)) == TruthyVariant(v)
    ensures EntryPath(TruthyVariant(v), root, name) == EntryPath(v, root, name)
  {
    if v == Some("") {
      assert Join("", Join(root, name)) == Join(root, name);
    }
  }

  /** So an enumeration made with the truthy variant is the one made with
      the variant as given, an empty one included. */
  lemma {:induction false} TruthyVariantSame(files: seq<FileRef>, keep: string -> bool, v: Option<string>)
    ensures Kept(files, keep, TruthyVariant(v)) == Kept(files, keep, v)
    decreases |files|
  {
    if files != [] {
      TruthyVariantSame(files[..|files| - 1], keep, v);
      var f := files[|files| - 1];
      TruthyVariantPaths(v, f.root, f.name);
    }
  }

  // ----- Directory listings ------------------------------------------------------------------------

  /** The entries of a listing that `isDir` accepts and that are not a
      substring of any ignored name, in listing order. `isDir` is evaluated on
      the bare entry, i.e. relative to the working directory. */
  function Subdirectories(listing: seq<string>, isDir: string -> bool, ignored: seq<string>): seq<string>
  {
    if listing == [] then []
    else
      var e := listing[|listing| - 1];
      Subdirectories(listing[..|listing| - 1], isDir, ignored)
        + (if isDir(e) && !AnyContains(e, ignored) then [e] else [])
  }

  lemma {:induction false} SubdirectoriesMembers(listing: seq<string>, isDir: string -> bool, ignored: seq<string>, e: string)
    ensures e in Subdirectories(listing, isDir, ignored) <==>
      e in listing && isDir(e) && !AnyContains(e, ignored)
    decreases |listing|
  {
    if listing != [] {
      var init := listing[..|listing| - 1];
      SubdirectoriesMembers(init, isDir, ignored, e);
      assert listing == init + [listing[|listing| - 1]];
    }
  }

  lemma {:induction false} SubdirectoriesInOrder(listing: seq<string>, isDir: string -> bool, ignored: seq<string>)
    ensures IsSubsequence(Subdirectories(listing, isDir, ignored), listing)
    decreases |listing|
  {
    if listing != [] {
      var init := listing[..|listing| - 1];
      var e := listing[|listing| - 1];
      var kept := Subdirectories(init, isDir, ignored);
      SubdirectoriesInOrder(init, isDir, ignored);
      assert listing == init + [e];
      if isDir(e) && !AnyContains(e, ignored) {
        assert Subdirectories(listing, isDir, ignored) == kept + [e];
        SubsequenceAppendBoth(kept, init, e);
      } else {
        assert Subdirectories(listing, isDir, ignored) == kept + [] == kept;
        SubsequenceAppendRight(kept, init, e);
      }
    }
  }

  lemma SubdirectoriesStep(listing: seq<string>, i: nat, isDir: string -> bool, ignored: seq<string>)
    requires i < |listing|
    ensures Subdirectories(listing[..i + 1], isDir, ignored)
         == Subdirectories(listing[..i], isDir, ignored)
            + (if isDir(listing[i]) && !AnyContains(listing[i], ignored) then [listing[i]] else [])
  {
    assert listing[..i + 1][..i] == listing[..i];
  }

  /** With nothing ignored, every listed directory is kept. */
  lemma {:induction false} NothingIgnored(listing: seq<string>, isDir: string -> bool)
    ensures forall e :: e in Subdirectories(listing, isDir, []) <==> e in listing && isDir(e)
  {
    forall e ensures e in Subdirectories(listing, isDir, []) <==> e in listing && isDir(e) {
      SubdirectoriesMembers(listing, isDir, [], e);
    }
  }

  // ----- Enumerating several walks one after another ---------------------------------------------

  /** The files of the walks rooted at each subdirectory, subdirectory by
      subdirectory. `walkOf(d)` is what `os.walk(d)` yields. */
  function ProjectFileRefs(subdirectories: seq<string>, walkOf: string -> Walk): seq<FileRef>
  {
    if subdirectories == [] then []
    else
      ProjectFileRefs(subdirectories[..|subdirectories| - 1], walkOf)
        + Files(walkOf(subdirectories[|subdirectories| - 1]))
  }

  lemma ProjectStep(subdirectories: seq<string>, s: nat, walkOf: string -> Walk, keep: string -> bool, variant: Option<string>)
    requires s < |subdirectories|
    ensures Kept(ProjectFileRefs(subdirectories[..s + 1], walkOf), keep, variant)
         == Kept(ProjectFileRefs(subdirectories[..s], walkOf), keep, variant)
            + Collect(walkOf(subdirectories[s]), keep, variant)
  {
    assert subdirectories[..s + 1][..s] == subdirectories[..s];
    KeptAppend(ProjectFileRefs(subdirectories[..s], walkOf), Files(walkOf(subdirectories[s])), keep, variant);
  }

  // ----- The enumeration loops -------------------------------------------------------------------

  /** The loop each enumerator runs: for every `(root, directory_names,
      file_names)` of the walk and every file name in it, append the joined
      path, prefixed by the variant directory when there is one, if `keep`
      accepts the name. */
  method CollectPaths(walk: Walk, keep: string -> bool, variant: Option<string>) returns (paths: seq<string>)
    ensures paths == Collect(walk, keep, variant)
  {
    paths := [];
    for i := 0 to |walk|
      invariant paths == Collect(walk[..i], keep, variant)
    {
      var root, fileNames := walk[i].root, walk[i].fileNames;
      ghost var before := paths;
      for j := 0 to |fileNames|
        invariant paths == before + Kept(DirFiles(WalkStep(root, fileNames[..j])), keep, variant)
      {
        var fileName := fileNames[j];
        DirStep(root, fileNames, j, keep, variant);
        if keep(fileName) {
          var path := if variant.None? then Join(root, fileName) else Join(variant.value, Join(root, fileName));
          assert path == EntryPath(variant, root, fileName);
          paths := paths + [path];
        }
      }
      assert fileNames[..|fileNames|] == fileNames;
      CollectStep(walk, i, keep, variant);
    }
    assert walk[..|walk|] == walk;
  }

  /** The loop of `_enumerate_subdirectories` over `os.listdir(root_directory)`. */
  method ListSubdirectories(listing: seq<string>, isDir: string -> bool, ignored: seq<string>)
    returns (directories: seq<string>)
    ensures directories == Subdirectories(listing, isDir, ignored)
  {
    directories := [];
    for i := 0 to |listing|
      invariant directories == Subdirectories(listing[..i], isDir, ignored)
    {
      var entry := listing[i];
      SubdirectoriesStep(listing, i, isDir, ignored);
      if isDir(entry) {
        if !AnyContains(entry, ignored) {
          directories := directories + [entry];
        }
      }
    }
    assert listing[..|listing|] == listing;
  }

  /** The outer loop of the project-wide enumerators: one walk per
      subdirectory, each rooted at the bare subdirectory name. */
  method CollectProjectPaths(subdirectories: seq<string>, walkOf: string -> Walk, keep: string -> bool, variant: Option<string>)
    returns (paths: seq<string>)
    ensures paths == Kept(ProjectFileRefs(subdirectories, walkOf), keep, variant)
  {
    paths := [];
    for s := 0 to |subdirectories|
      invariant paths == Kept(ProjectFileRefs(subdirectories[..s], walkOf), keep, variant)
    {
      var found := CollectPaths(walkOf(subdirectories[s]), keep, variant);
      ProjectStep(subdirectories, s, walkOf, keep, variant);
      paths := paths + found;
    }
    assert subdirectories[..|subdirectories|] == subdirectories;
  }

  /** Walks until the first file `keep` accepts and reports it, or reports
      that no file of the walk is accepted. */
  method FindAccepted(walk: Walk, keep: string -> bool) returns (found: Option<FileRef>)
    ensures found.None? <==> forall f :: f in Files(walk) ==> !keep(f.name)
    ensures found.Some? ==> found.value in Files(walk) && keep(found.value.name)
  {
    for i := 0 to |walk|
      invariant forall f :: f in Files(walk[..i]) ==> !keep(f.name)
    {
      var root, fileNames := walk[i].root, walk[i].fileNames;
      for j := 0 to |fileNames|
        invariant forall k :: 0 <= k < j ==> !keep(fileNames[k])
      {
        if keep(fileNames[j]) {
          assert walk[i].root == root && fileNames[j] in walk[i].fileNames;
          FilesMembers(walk, FileRef(root, fileNames[j]));
          return Some(FileRef(root, fileNames[j]));
        }
      }
      ghost var w := walk[..i + 1];
      assert w[..|w| - 1] == walk[..i];
      assert Files(w) == Files(walk[..i]) + DirFiles(walk[i]);
      forall f | f in Files(w) ensures !keep(f.name) {
        if f !in Files(walk[..i]) {
          var k :| 0 <= k < |DirFiles(walk[i])| && DirFiles(walk[i])[k] == f;
        }
      }
    }
    assert walk[..|walk|] == walk;
    return None;
  }
}
