/** `scons/csharp.py`: enumeration of C# sources under a directory. */
module CSharp {
  import opened Wrappers
  import opened PyPath
  import opened Walks

  const CSharpExtensions: seq<string> := [".cs"]

  /** The source filter: the `splitext` extension is a substring of `.cs`. */
  predicate IsCSharpSourceFile(name: string) {
    AnyContains(Extension(name), CSharpExtensions)
  }

  /** `enumerate_sources(source_directory, variant_directory)`. The variant is
      compared with `None`, so an empty variant is still joined in front. */
  method EnumerateSources(walk: Walk, variant: Option<string>) returns (sources: seq<string>)
    ensures sources == Collect(walk, IsCSharpSourceFile, variant)
  {
    sources := CollectPaths(walk, IsCSharpSourceFile, variant);
  }

  /** Exactly four extensions pass: the prefixes of `.cs`. */
  lemma CSharpFilterExact(name: string)
    ensures IsCSharpSourceFile(name) <==> Extension(name) in {"", ".", ".c", ".cs"}
  {
    var ext := Extension(name);
    ContainmentIsPrefix(ext, CSharpExtensions);
    assert (exists e :: e in CSharpExtensions && ext <= e) <==> ext <= ".cs";
    assert ".cs"[..0] == "" && ".cs"[..1] == "." && ".cs"[..2] == ".c" && ".cs"[..3] == ".cs";
    if ext <= ".cs" {
      assert ext == ".cs"[..|ext|] && |ext| <= 3;
    } else {
      assert forall k :: 0 <= k <= 3 ==> ".cs"[..k] <= ".cs";
    }
  }

  /** A C file and an extensionless file are both taken for C# sources. */
  lemma CSharpSamples()
    ensures IsCSharpSourceFile("main.c") && IsCSharpSourceFile("README")
  {
    assert "main"[0] != ExtSep;
    SplitExtOf("main", ".c");
    assert "main" + ".c" == "main.c";
    CSharpFilterExact("main.c");
    SplitExtNoDot("README");
    CSharpFilterExact("README");
  }

  /** Case matters: `a.CS` is not a C# source. */
  lemma UpperCaseRejected()
    ensures !IsCSharpSourceFile("a.CS")
  {
    assert "a"[0] != ExtSep;
    SplitExtOf("a", ".CS");
    assert "a" + ".CS" == "a.CS";
    CSharpFilterExact("a.CS");
  }

  /** Passing `''` as the variant gives the same list as passing none. */
  lemma EmptyVariantIgnored(walk: Walk)
    ensures Collect(walk, IsCSharpSourceFile, Some("")) == Collect(walk, IsCSharpSourceFile, None)
  {
    TruthyVariantSame(Files(walk), IsCSharpSourceFile, Some(""));
  }
}
