/** `scons/nuclex.py`: platform-specific target names and the paths and
    command line of the C++ build and unit-test targets. */
module Nuclex {
  import opened Wrappers
  import opened PyPath
  import opened Walks
  import CPlusPlus

  /** The intermediate directory every target is built into. */
  const IntermediateDirectory: string := "obj"

  /** The file the unit tests write their results to. */
  const TestResultsFile: string := "googletest-results.xml"

  /** `get_cplusplus_platform_specific_name(universal_name, is_executable)`
      with `platform.system()` passed in as `system`. On Linux the dots are
      removed and `lib` is put in front, whatever the kind of target;
      elsewhere `.exe` or `.so` is appended. */
  function PlatformSpecificName(system: string, universalName: string, isExecutable: bool): (r: string)
    ensures system == "Linux" ==> "lib" <= r && ExtSep !in r && |r| <= 3 + |universalName|
    ensures system != "Linux" ==> universalName <= r
    ensures system != "Linux" ==> r[|universalName|..] == (if isExecutable then ".exe" else ".so")
  {
    if system == "Linux" then
      assert ExtSep !in "lib";
      "lib" + RemoveAll(universalName, ExtSep)
    else if isExecutable then universalName + ".exe"
    else universalName + ".so"
  }

  /** On Linux a library and an executable of the same name get the same file
      name. */
  lemma LinuxKindsCollide(universalName: string)
    ensures PlatformSpecificName("Linux", universalName, true) == PlatformSpecificName("Linux", universalName, false)
  {
  }

  /** On Linux a dot anywhere in the universal name makes no difference:
      `A.B` and `AB` collide. */
  lemma LinuxDotsCollide(before: string, after: string, isExecutable: bool)
    ensures PlatformSpecificName("Linux", before + "." + after, isExecutable)
         == PlatformSpecificName("Linux", before + after, isExecutable)
  {
    var dotted := before + ".";
    RemoveAllAppend(dotted, after, ExtSep);
    RemoveAllAppend(before, ".", ExtSep);
    RemoveAllAppend(before, after, ExtSep);
    assert RemoveAll(".", ExtSep) == [] by {
      assert "."[0] == ExtSep && "."[1..] == [];
    }
    assert RemoveAll(dotted, ExtSep) == RemoveAll(before, ExtSep);
  }

  /** Elsewhere a library and an executable never share a file name. */
  lemma OtherKindsDiffer(system: string, universalName: string)
    requires system != "Linux"
    ensures PlatformSpecificName(system, universalName, true) != PlatformSpecificName(system, universalName, false)
  {
    var exe := PlatformSpecificName(system, universalName, true);
    var lib := PlatformSpecificName(system, universalName, false);
    assert |exe| == |universalName| + 4 && |lib| == |universalName| + 3;
  }

  /** Elsewhere different universal names give different file names. */
  lemma OtherNamesDistinct(system: string, a: string, b: string, isExecutable: bool)
    requires system != "Linux"
    requires a != b
    ensures PlatformSpecificName(system, a, isExecutable) != PlatformSpecificName(system, b, isExecutable)
  {
    var ra := PlatformSpecificName(system, a, isExecutable);
    var rb := PlatformSpecificName(system, b, isExecutable);
    if |a| == |b| {
      assert ra[..|a|] == a && rb[..|b|] == b;
    } else {
      assert |ra| - |a| == |rb| - |b|;
    }
  }

  // ----- Build targets ----------------------------------------------------------------------------

  /** What a builder call is handed: the output path and the source list. */
  datatype BuildTarget = BuildTarget(target: string, sources: seq<string>)

  /** `compile_cplusplus_shared_library(universal_library_name)`: the sources of
      the walk of `Source`, rewritten into `obj`, built into
      `obj/<library name>`. */
  method CompileSharedLibrary(system: string, universalLibraryName: string, sourceWalk: Walk)
    returns (build: BuildTarget)
    ensures build.target == Join(IntermediateDirectory, PlatformSpecificName(system, universalLibraryName, false))
    ensures build.sources == Collect(sourceWalk, CPlusPlus.IsSourceFile, Some(IntermediateDirectory))
  {
    var sources := CPlusPlus.EnumerateSources(sourceWalk, Some(IntermediateDirectory));
    var platformLibraryName := PlatformSpecificName(system, universalLibraryName, false);
    build := BuildTarget(Join(IntermediateDirectory, platformLibraryName), sources);
  }

  /** `compile_cplusplus_unit_tests(universal_executable_name)`: the sources of
      `Source` followed by those of `Tests`, built into
      `obj/<executable name>`. */
  method CompileUnitTests(system: string, universalExecutableName: string, sourceWalk: Walk, testWalk: Walk)
    returns (build: BuildTarget)
    ensures build.target == Join(IntermediateDirectory, PlatformSpecificName(system, universalExecutableName, true))
    ensures build.sources == Collect(sourceWalk, CPlusPlus.IsSourceFile, Some(IntermediateDirectory))
                           + Collect(testWalk, CPlusPlus.IsSourceFile, Some(IntermediateDirectory))
  {
    var sources := CPlusPlus.EnumerateSources(sourceWalk, Some(IntermediateDirectory));
    var tests := CPlusPlus.EnumerateSources(testWalk, Some(IntermediateDirectory));
    var platformExecutableName := PlatformSpecificName(system, universalExecutableName, true);
    build := BuildTarget(Join(IntermediateDirectory, platformExecutableName), sources + tests);
  }

  /** A relative output name lands directly inside `obj`. */
  lemma TargetInIntermediateDirectory(system: string, universalName: string, isExecutable: bool)
    requires !IsAbsolute(universalName)
    ensures Join(IntermediateDirectory, PlatformSpecificName(system, universalName, isExecutable))
         == IntermediateDirectory + "/" + PlatformSpecificName(system, universalName, isExecutable)
  {
    var name := PlatformSpecificName(system, universalName, isExecutable);
    if system == "Linux" {
      assert name[0] == 'l';
    } else if universalName == [] {
      assert name[0] == '.';
    } else {
      assert name[0] == universalName[0];
    }
  }

  /** Elsewhere an absolute universal name escapes `obj`: `join` keeps only
      the name. */
  lemma AbsoluteNameEscapes(system: string, universalName: string, isExecutable: bool)
    requires system != "Linux" && IsAbsolute(universalName)
    ensures Join(IntermediateDirectory, PlatformSpecificName(system, universalName, isExecutable))
         == PlatformSpecificName(system, universalName, isExecutable)
  {
    assert PlatformSpecificName(system, universalName, isExecutable)[0] == universalName[0];
  }

  // ----- Running the unit tests -------------------------------------------------------------------

  /** The values `run_cplusplus_unit_tests` hands to `env.Command`. */
  datatype TestRun = TestRun(executable: string, results: string, command: string)

  /** `run_cplusplus_unit_tests(universal_executable_name)`. */
  function UnitTestRun(system: string, universalExecutableName: string): (run: TestRun)
    ensures run.command == run.executable + " --gtest_output=xml:" + run.results
  {
    var executable := Join(IntermediateDirectory, PlatformSpecificName(system, universalExecutableName, true));
    var results := Join(DirName(executable), TestResultsFile);
    TestRun(executable, results, executable + " --gtest_output=xml:" + results)
  }

  /** For a plain name the test program is run from `obj`, the executable
      `CompileUnitTests` builds, and writes its results next to it, to
      `obj/googletest-results.xml`. */
  lemma UnitTestPaths(system: string, universalExecutableName: string)
    requires Sep !in universalExecutableName
    ensures UnitTestRun(system, universalExecutableName).executable
         == IntermediateDirectory + [Sep] + PlatformSpecificName(system, universalExecutableName, true)
    ensures UnitTestRun(system, universalExecutableName).results
         == IntermediateDirectory + [Sep] + TestResultsFile
  {
    var name := PlatformSpecificName(system, universalExecutableName, true);
    PlainNameStaysPlain(system, universalExecutableName, true);
    DirNameOfJoin(IntermediateDirectory, name);
    JoinPlain(IntermediateDirectory, TestResultsFile);
  }

  /** Whatever the universal name and the system, the results file is
      written into the directory that holds the test executable. */
  lemma ResultsBesideExecutable(system: string, universalExecutableName: string)
    ensures DirName(UnitTestRun(system, universalExecutableName).results)
         == DirName(UnitTestRun(system, universalExecutableName).executable)
    ensures var results := UnitTestRun(system, universalExecutableName).results;
      |results| >= |TestResultsFile| && results[|results| - |TestResultsFile|..] == TestResultsFile
  {
    var executable := UnitTestRun(system, universalExecutableName).executable;
    ResultsFileIsPlain();
    DirNameOfJoinFile(DirName(executable), TestResultsFile);
    JoinAppends(DirName(executable), TestResultsFile);
  }

  /** The results file name is a plain relative name. */
  lemma ResultsFileIsPlain()
    ensures Sep !in TestResultsFile && !IsAbsolute(TestResultsFile)
  {
  }

  /** A universal name without separators gives a file name without them. */
  lemma PlainNameStaysPlain(system: string, universalName: string, isExecutable: bool)
    requires Sep !in universalName
    ensures Sep !in PlatformSpecificName(system, universalName, isExecutable)
  {
    var name := PlatformSpecificName(system, universalName, isExecutable);
    if system != "Linux" {
      var suffix := if isExecutable then ".exe" else ".so";
      assert Sep !in suffix;
      assert name == universalName + suffix;
    }
  }
}
