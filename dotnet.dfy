/** `scons/dotnet.py`: enumeration of C# and Visual Basic sources under a
    directory. */
module DotNet {
  import opened Wrappers
  import opened PyPath
  import opened Seqs
  import opened Walks
  import CSharp

  const DotNetExtensions: seq<string> := [".cs", ".vb"]

  /** The source filter: the `splitext` extension is a substring of `.cs` or
      of `.vb`. */
  predicate IsDotNetSourceFile(name: string) {
    AnyContains(Extension(name), DotNetExtensions)
  }

  /** `enumerate_sources(source_directory, variant_directory)`. The variant is
      compared with `None`. */
  method EnumerateSources(walk: Walk, variant: Option<string>) returns (sources: seq<string>)
    ensures sources == Collect(walk, IsDotNetSourceFile, variant)
  {
    sources := CollectPaths(walk, IsDotNetSourceFile, variant);
  }

  /** Exactly six extensions pass: the prefixes of `.cs` and of `.vb`. */
  lemma DotNetFilterExact(name: string)
    ensures IsDotNetSourceFile(name) <==> Extension(name) in {"", ".", ".c", ".cs", ".v", ".vb"}
  {
    var ext := Extension(name);
    ContainmentIsPrefix(ext, DotNetExtensions);
    assert (exists e :: e in DotNetExtensions && ext <= e) <==> ext <= ".cs" || ext <= ".vb";
    assert ".cs"[..0] == "" && ".cs"[..1] == "." && ".cs"[..2] == ".c" && ".cs"[..3] == ".cs";
    assert ".vb"[..2] == ".v" && ".vb"[..3] == ".vb";
    if ext <= ".cs" {
      assert ext == ".cs"[..|ext|] && |ext| <= 3;
    } else if ext <= ".vb" {
      assert ext == ".vb"[..|ext|] && |ext| <= 3;
    } else {
      assert forall k :: 0 <= k <= 3 ==> ".cs"[..k] <= ".cs" && ".vb"[..k] <= ".vb";
    }
  }

  /** `x.v` is taken for a Visual Basic source: `.v` is a prefix of `.vb`. */
  lemma TruncatedVisualBasicSample()
    ensures IsDotNetSourceFile("x.v")
  {
    assert "x"[0] != ExtSep;
    SplitExtOf("x", ".v");
    assert "x" + ".v" == "x.v";
    DotNetFilterExact("x.v");
  }

  /** Every name the C# enumerator keeps is kept here too. */
  lemma CSharpFilterIncluded(name: string)
    ensures CSharp.IsCSharpSourceFile(name) ==> IsDotNetSourceFile(name)
  {
    CSharp.CSharpFilterExact(name);
    DotNetFilterExact(name);
  }

  /** Over the same walk and variant, the C# enumeration is an order-preserving
      sub-list of this one. */
  lemma CSharpIncluded(walk: Walk, variant: Option<string>)
    ensures IsSubsequence(Collect(walk, CSharp.IsCSharpSourceFile, variant), Collect(walk, IsDotNetSourceFile, variant))
  {
    forall n | CSharp.IsCSharpSourceFile(n) ensures IsDotNetSourceFile(n) {
      CSharpFilterIncluded(n);
    }
    KeptMonotone(Files(walk), CSharp.IsCSharpSourceFile, IsDotNetSourceFile, variant);
  }

  /** At most one path per walked file; none for a walk without files. */
  lemma SourcesBound(walk: Walk, variant: Option<string>)
    ensures |Collect(walk, IsDotNetSourceFile, variant)| <= FileCount(walk)
    ensures FileCount(walk) == 0 ==> Collect(walk, IsDotNetSourceFile, variant) == []
  {
    CollectBound(walk, IsDotNetSourceFile, variant);
  }
}
