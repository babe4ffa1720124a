/** `scons/cplusplus.py`: enumeration of C/C++ headers and sources under a
    directory, with an optional variant directory prepended to every path. */
module CPlusPlus {
  import opened Wrappers
  import opened PyPath
  import opened Walks

  const HeaderExtensions: seq<string> := [".h", ".H", ".hpp", ".hh", ".hxx", ".inl", ".inc"]
  const SourceExtensions: seq<string> := [".c", ".C", ".cpp", ".cc", ".cxx", ".inl", ".inc"]

  /** The header filter: the `splitext` extension is a substring of an entry. */
  predicate IsHeaderFile(name: string) {
    AnyContains(Extension(name), HeaderExtensions)
  }

  /** The source filter, with the same substring test. */
  predicate IsSourceFile(name: string) {
    AnyContains(Extension(name), SourceExtensions)
  }

  /** `enumerate_headers(header_directory, variant_directory)`, with the walk
      of `header_directory` given as data. The variant is tested for
      truthiness, so `None` and `''` both leave the walked paths alone. */
  method EnumerateHeaders(walk: Walk, variant: Option<string>) returns (headers: seq<string>)
    ensures headers == Collect(walk, IsHeaderFile, TruthyVariant(variant))
  {
    headers := CollectPaths(walk, IsHeaderFile, TruthyVariant(variant));
  }

  /** `enumerate_sources(source_directory, variant_directory)`. */
  method EnumerateSources(walk: Walk, variant: Option<string>) returns (sources: seq<string>)
    ensures sources == Collect(walk, IsSourceFile, TruthyVariant(variant))
  {
    sources := CollectPaths(walk, IsSourceFile, TruthyVariant(variant));
  }

  // ----- What the filters accept ------------------------------------------------------------------

  /** A header is kept exactly when its extension is a prefix of one of the
      listed extensions (the empty extension is a prefix of all of them),
      compared case-sensitively. */
  lemma HeaderFilterExact(name: string)
    ensures IsHeaderFile(name) <==> exists e :: e in HeaderExtensions && Extension(name) <= e
  {
    ContainmentIsPrefix(Extension(name), HeaderExtensions);
  }

  /** A source is kept exactly when its extension is a prefix of one of the
      listed extensions, compared case-sensitively. */
  lemma SourceFilterExact(name: string)
    ensures IsSourceFile(name) <==> exists e :: e in SourceExtensions && Extension(name) <= e
  {
    ContainmentIsPrefix(Extension(name), SourceExtensions);
  }

  /** Files without an extension, such as `Makefile`, pass both filters. */
  lemma ExtensionlessFilesPass(name: string)
    requires ExtSep !in name
    ensures IsHeaderFile(name) && IsSourceFile(name)
  {
    SplitExtNoDot(name);
    HeaderFilterExact(name);
    SourceFilterExact(name);
    assert HeaderExtensions[0] in HeaderExtensions && SourceExtensions[0] in SourceExtensions;
  }

  /** Inline and include files are both headers and sources, so a tree holding
      them yields them from both enumerations. */
  lemma InlineFilesInBoth(walk: Walk, variant: Option<string>, root: string, name: string)
    requires Extension(name) in {".inl", ".inc"}
    requires exists i :: 0 <= i < |walk| && walk[i].root == root && name in walk[i].fileNames
    ensures EntryPath(TruthyVariant(variant), root, name) in Collect(walk, IsHeaderFile, TruthyVariant(variant))
    ensures EntryPath(TruthyVariant(variant), root, name) in Collect(walk, IsSourceFile, TruthyVariant(variant))
  {
    var f := FileRef(root, name);
    FilesMembers(walk, f);
    HeaderFilterExact(name);
    SourceFilterExact(name);
    assert Extension(name) in HeaderExtensions && Extension(name) in SourceExtensions;
    var p := EntryPath(TruthyVariant(variant), root, name);
    KeptMembers(Files(walk), IsHeaderFile, TruthyVariant(variant), p);
    KeptMembers(Files(walk), IsSourceFile, TruthyVariant(variant), p);
  }

  /** A name made of a plain stem and a prefix of a listed header extension
      is a header. */
  lemma HeaderByPrefix(stem: string, ext: string, listed: string)
    requires Sep !in stem && |stem| > 0 && stem[0] != ExtSep
    requires |ext| > 0 && IsExtension(ext)
    requires listed in HeaderExtensions && ext <= listed
    ensures IsHeaderFile(stem + ext)
  {
    SplitExtOf(stem, ext);
    HeaderFilterExact(stem + ext);
  }

  /** `Makefile` passes both filters. */
  lemma MakefilePasses()
    ensures IsHeaderFile("Makefile") && IsSourceFile("Makefile")
  {
    ExtensionlessFilesPass("Makefile");
  }

  /** `a.hp` counts as a header: it is a prefix of `.hpp`. */
  lemma TruncatedHeaderSample()
    ensures IsHeaderFile("a.hp")
  {
    assert ".hp" <= HeaderExtensions[2];
    HeaderByPrefix("a", ".hp", HeaderExtensions[2]);
    assert "a" + ".hp" == "a.hp";
  }

  /** `x.in` counts as a header: it is a prefix of `.inl` and `.inc`. */
  lemma TruncatedInlineSample()
    ensures IsHeaderFile("x.in")
  {
    assert ".in" <= HeaderExtensions[5];
    HeaderByPrefix("x", ".in", HeaderExtensions[5]);
    assert "x" + ".in" == "x.in";
  }

  /** Case matters: `a.HPP` is not a header. */
  lemma UpperCaseHeaderRejected()
    ensures !IsHeaderFile("a.HPP")
  {
    assert "a"[0] != ExtSep;
    SplitExtOf("a", ".HPP");
    assert "a" + ".HPP" == "a.HPP";
    HeaderFilterExact("a.HPP");
    UpperCaseNotListed();
  }

  /** No listed extension starts with `.HPP` or `.CPP`. */
  lemma UpperCaseNotListed()
    ensures forall e :: e in HeaderExtensions ==> !(".HPP" <= e)
    ensures forall e :: e in SourceExtensions ==> !(".CPP" <= e)
  {
    forall e | e in HeaderExtensions ensures !(".HPP" <= e) {
      assert |e| < |".HPP"| || e[1] != ".HPP"[1];
    }
    forall e | e in SourceExtensions ensures !(".CPP" <= e) {
      assert |e| < |".CPP"| || e[1] != ".CPP"[1];
    }
  }

  /** `a.cp` counts as a source and `a.CPP` does not. */
  lemma SourceSamples()
    ensures IsSourceFile("a.cp") && !IsSourceFile("a.CPP")
  {
    assert "a"[0] != ExtSep;
    SplitExtOf("a", ".cp");
    assert "a" + ".cp" == "a.cp";
    SourceFilterExact("a.cp");
    assert ".cp" <= SourceExtensions[2];
    SplitExtOf("a", ".CPP");
    assert "a" + ".CPP" == "a.CPP";
    SourceFilterExact("a.CPP");
  }

  /** A file listed twice by the walk is returned twice: nothing is
      de-duplicated. */
  lemma NoDeduplication()
    ensures Collect([WalkStep("src", ["a.c"]), WalkStep("src", ["a.c"])], IsSourceFile, None)
         == ["src/a.c", "src/a.c"]
  {
    var f := FileRef("src", "a.c");
    TwiceListed();
    assert IsSourceFile("a.c") by {
      assert "a"[0] != ExtSep;
      SplitExtOf("a", ".c");
      assert "a" + ".c" == "a.c";
      SourceFilterExact("a.c");
      assert ".c" <= SourceExtensions[0];
    }
    assert [f, f][..1] == [f] && [f][..0] == [];
    assert Join("src", "a.c") == "src/a.c";
    assert Kept([f], IsSourceFile, None) == [] + ["src/a.c"];
  }

  /** The walk of `NoDeduplication` reports the same file twice. */
  lemma TwiceListed()
    ensures Files([WalkStep("src", ["a.c"]), WalkStep("src", ["a.c"])]) == [FileRef("src", "a.c"), FileRef("src", "a.c")]
  {
    var step := WalkStep("src", ["a.c"]);
    var f := FileRef("src", "a.c");
    assert DirFiles(step) == [f];
    assert [step, step][..1] == [step] && [step][..0] == [];
    assert Files([step]) == [] + [f];
  }
}
