/** `scons/godot-project-builder.py`: enumeration of a Godot project's
    subdirectories, assets and GDNative sources, and the export command line. */
module GodotProjectBuilder {
  import opened Wrappers
  import opened PyPath
  import opened Seqs
  import opened Walks

  /** The Godot executable used for exports. */
  const GodotExecutablePath: string := "/opt/godot-3.1/bin/godot_headless.x11.opt.tools.64"

  const GdnativeExtensions: seq<string> := [".c", ".C", ".cpp", ".cc"]

  /** The GDNative source filter: the `splitext` extension is a substring of
      one of the listed extensions. */
  predicate IsGdnativeSourceFile(name: string) {
    AnyContains(Extension(name), GdnativeExtensions)
  }

  // ----- Subdirectories ---------------------------------------------------------------------------

  /** `_enumerate_subdirectories(root_directory, ignored_directories)` with
      `os.listdir(root_directory)` given as `listing` and `os.path.isdir` as
      `isDir`. The default ignore list is empty. */
  method EnumerateSubdirectories(listing: seq<string>, isDir: string -> bool, ignored: seq<string>)
    returns (directories: seq<string>)
    ensures directories == Subdirectories(listing, isDir, ignored)
  {
    directories := ListSubdirectories(listing, isDir, ignored);
  }

  /** A listed entry is kept exactly when it is a directory and no ignored
      name contains it; the kept entries keep their listing order. */
  lemma SubdirectoriesSelected(listing: seq<string>, isDir: string -> bool, ignored: seq<string>)
    ensures forall e :: e in Subdirectories(listing, isDir, ignored) <==>
      e in listing && isDir(e) && !AnyContains(e, ignored)
    ensures IsSubsequence(Subdirectories(listing, isDir, ignored), listing)
  {
    forall e ensures e in Subdirectories(listing, isDir, ignored) <==>
      e in listing && isDir(e) && !AnyContains(e, ignored) {
      SubdirectoriesMembers(listing, isDir, ignored, e);
    }
    SubdirectoriesInOrder(listing, isDir, ignored);
  }

  // ----- Assets and sources -----------------------------------------------------------------------

  /** `enumerate_project_assets(project_directory, ignored_directories,
      variant_directory)`: every file of every kept subdirectory, each walk
      rooted at the bare subdirectory name (`walkOf(d)` is `os.walk(d)`). The
      variant is tested for truthiness. */
  method EnumerateProjectAssets(listing: seq<string>, isDir: string -> bool, ignored: seq<string>,
                                walkOf: string -> Walk, variant: Option<string>)
    returns (sources: seq<string>)
    ensures sources == Kept(ProjectFileRefs(Subdirectories(listing, isDir, ignored), walkOf), AnyFile, TruthyVariant(variant))
  {
    var subdirectories := EnumerateSubdirectories(listing, isDir, ignored);
    sources := CollectProjectPaths(subdirectories, walkOf, AnyFile, TruthyVariant(variant));
  }

  /** `enumerate_gdnative_sources(project_directory, ignored_directories,
      variant_directory)`: the same walks, filtered by extension. */
  method EnumerateGdnativeSources(listing: seq<string>, isDir: string -> bool, ignored: seq<string>,
                                  walkOf: string -> Walk, variant: Option<string>)
    returns (sources: seq<string>)
    ensures sources == Kept(ProjectFileRefs(Subdirectories(listing, isDir, ignored), walkOf), IsGdnativeSourceFile, TruthyVariant(variant))
  {
    var subdirectories := EnumerateSubdirectories(listing, isDir, ignored);
    sources := CollectProjectPaths(subdirectories, walkOf, IsGdnativeSourceFile, TruthyVariant(variant));
  }

  /** Exactly seven extensions pass: the prefixes of `.c`, `.C`, `.cpp` and
      `.cc`. So `.cp` passes, while `.cxx` and header extensions do not. */
  lemma GdnativeFilterExact(name: string)
    ensures IsGdnativeSourceFile(name) <==> Extension(name) in {"", ".", ".c", ".C", ".cp", ".cpp", ".cc"}
  {
    var ext := Extension(name);
    ContainmentIsPrefix(ext, GdnativeExtensions);
    assert (exists e :: e in GdnativeExtensions && ext <= e) <==>
      ext <= ".c" || ext <= ".C" || ext <= ".cpp" || ext <= ".cc";
    assert ".cpp"[..0] == "" && ".cpp"[..1] == "." && ".cpp"[..2] == ".c" && ".cpp"[..3] == ".cp" && ".cpp"[..4] == ".cpp";
    assert ".C"[..1] == "." && ".C"[..2] == ".C";
    assert ".cc"[..2] == ".c" && ".cc"[..3] == ".cc";
    if ext <= ".cpp" {
      assert ext == ".cpp"[..|ext|] && |ext| <= 4;
    } else if ext <= ".C" {
      assert ext == ".C"[..|ext|] && |ext| <= 2;
    } else if ext <= ".cc" {
      assert ext == ".cc"[..|ext|] && |ext| <= 3;
    } else {
      assert !(ext <= ".c");
      assert forall k :: 0 <= k <= 4 ==> ".cpp"[..k] <= ".cpp";
      assert ".C" <= ".C" && ".cc" <= ".cc";
    }
  }

  /** For the same arguments, the GDNative sources are an order-preserving
      sub-list of the project assets. */
  lemma SourcesAmongAssets(listing: seq<string>, isDir: string -> bool, ignored: seq<string>,
                           walkOf: string -> Walk, variant: Option<string>)
    ensures IsSubsequence(
      Kept(ProjectFileRefs(Subdirectories(listing, isDir, ignored), walkOf), IsGdnativeSourceFile, TruthyVariant(variant)),
      Kept(ProjectFileRefs(Subdirectories(listing, isDir, ignored), walkOf), AnyFile, TruthyVariant(variant)))
  {
    KeptMonotone(ProjectFileRefs(Subdirectories(listing, isDir, ignored), walkOf),
                 IsGdnativeSourceFile, AnyFile, TruthyVariant(variant));
  }

  /** An empty variant directory leaves the walked paths alone, exactly like
      passing none. */
  lemma EmptyVariantIgnored(files: seq<FileRef>)
    ensures Kept(files, IsGdnativeSourceFile, TruthyVariant(Some(""))) == Kept(files, IsGdnativeSourceFile, None)
    ensures Kept(files, AnyFile, TruthyVariant(Some(""))) == Kept(files, AnyFile, None)
  {
  }

  // ----- The export command -----------------------------------------------------------------------

  /** The command line `_export_godot_project` hands to the shell. */
  function ExportCommand(profile: string, exportPath: string): (command: string)
    ensures GodotExecutablePath <= command
  {
    GodotExecutablePath + " --verbose" + " --path \"./\"" + " --export \"" + profile + "\"" + " \"" + exportPath + "\""
  }

  /** The command with its quotes made explicit: the executable, then the
      options, with the project path, the profile and the export path each
      between a pair of quotes. */
  lemma CommandShape(profile: string, exportPath: string)
    ensures ExportCommand(profile, exportPath)
      == GodotExecutablePath + (" --verbose --path " + ['"'] + ("./" + ['"'] + (" --export " + ['"']
         + (profile + ['"'] + (" " + ['"'] + (exportPath + ['"'] + []))))))
  {
    ConcatenationShape(GodotExecutablePath, profile, exportPath);
  }

  /** The concatenation of `CommandShape` for any executable path. */
  lemma ConcatenationShape(executable: string, profile: string, exportPath: string)
    ensures executable + " --verbose" + " --path \"./\"" + " --export \"" + profile + "\"" + " \"" + exportPath + "\""
      == executable + (" --verbose --path " + ['"'] + ("./" + ['"'] + (" --export " + ['"']
         + (profile + ['"'] + (" " + ['"'] + (exportPath + ['"'] + []))))))
  {
    var q := '"';
    assert " --path \"./\"" == " --path " + [q] + "./" + [q];
    assert " --export \"" == " --export " + [q];
    assert " \"" == " " + [q];
  }

  /** When neither the profile nor the export path holds a double quote,
      splitting what follows the executable at its quotes gives back the fixed
      options, the project path `./`, the profile and the export path. */
  lemma ExportCommandArguments(profile: string, exportPath: string)
    requires '"' !in profile && '"' !in exportPath
    ensures Split(ExportCommand(profile, exportPath)[|GodotExecutablePath|..], '"')
         == [" --verbose --path ", "./", " --export ", profile, " ", exportPath, ""]
  {
    var q := '"';
    var pieces := [" --verbose --path ", "./", " --export ", profile, " ", exportPath, ""];
    assert JoinWith(q, pieces[6..]) == [];
    assert JoinWith(q, pieces[5..]) == exportPath + [q] + [];
    assert JoinWith(q, pieces[4..]) == " " + [q] + JoinWith(q, pieces[5..]);
    assert JoinWith(q, pieces[3..]) == profile + [q] + JoinWith(q, pieces[4..]);
    assert JoinWith(q, pieces[2..]) == " --export " + [q] + JoinWith(q, pieces[3..]);
    assert JoinWith(q, pieces[1..]) == "./" + [q] + JoinWith(q, pieces[2..]);
    assert JoinWith(q, pieces) == " --verbose --path " + [q] + JoinWith(q, pieces[1..]);
    CommandShape(profile, exportPath);
    assert ExportCommand(profile, exportPath)[|GodotExecutablePath|..] == JoinWith(q, pieces);
    SplitJoinWith(q, pieces);
  }

  /** A double quote inside the profile name is not escaped, so the quotes of
      the command no longer pair up: the quote-delimited pieces cut the
      profile at it, the part after it falls outside any pair of quotes, and
      the space before the export path falls inside one. */
  lemma QuoteInProfileUnbalancesQuotes(before: string, after: string, exportPath: string)
    requires '"' !in before && '"' !in after && '"' !in exportPath
    ensures Split(ExportCommand(before + "\"" + after, exportPath)[|GodotExecutablePath|..], '"')
         == [" --verbose --path ", "./", " --export ", before, after, " ", exportPath, ""]
  {
    var q := '"';
    var pieces := [" --verbose --path ", "./", " --export ", before, after, " ", exportPath, ""];
    assert JoinWith(q, pieces[7..]) == [];
    assert JoinWith(q, pieces[6..]) == exportPath + [q] + [];
    assert JoinWith(q, pieces[5..]) == " " + [q] + JoinWith(q, pieces[6..]);
    assert JoinWith(q, pieces[4..]) == after + [q] + JoinWith(q, pieces[5..]);
    assert JoinWith(q, pieces[3..]) == before + [q] + JoinWith(q, pieces[4..]);
    assert JoinWith(q, pieces[2..]) == " --export " + [q] + JoinWith(q, pieces[3..]);
    assert JoinWith(q, pieces[1..]) == "./" + [q] + JoinWith(q, pieces[2..]);
    assert JoinWith(q, pieces) == " --verbose --path " + [q] + JoinWith(q, pieces[1..]);
    CommandShape(before + [q] + after, exportPath);
    assert before + [q] + after + [q] + JoinWith(q, pieces[5..]) == before + [q] + (after + [q] + JoinWith(q, pieces[5..]));
    assert ExportCommand(before + [q] + after, exportPath)[|GodotExecutablePath|..] == JoinWith(q, pieces);
    SplitJoinWith(q, pieces);
  }
}
