# Nuclex build-system scripts, modelled in Dafny

The Nuclex build system is a set of SCons helper scripts and one Blender
macro. This project models the parts of them that decide something:

- **File enumeration.** `cplusplus.py`, `csharp.py`, `dotnet.py`,
  `godot-project-builder.py` and `godot.py` walk a directory tree. They keep
  the files whose `os.path.splitext` extension passes an allow-list test, and
  record `join(root, name)` for each, optionally prefixed with a variant
  directory. The test is `any(ext in s for s in list)`, and `in` on two strings
  is a substring test, so the filters accept every prefix of a listed
  extension. For the C++, C#, .NET and GDNative filters that includes the
  empty extension, so `Makefile` counts as a C++ source. The Godot asset
  filter tests `file_extension and …` first, so it rejects the empty
  extension but still accepts a truncated one such as `.t`. The model keeps
  that behaviour and states it exactly:
  `CPlusPlus.HeaderFilterExact`, `CSharp.CSharpFilterExact`,
  `DotNet.DotNetFilterExact`, `GodotProjectBuilder.GdnativeFilterExact` and
  `Godot.AssetFilterExact`.
- **Subdirectory enumeration.** A listed entry is kept when it is a directory
  and is not a substring of an ignored name. So `in` is dropped when `bin` is
  ignored.
- **Godot export command.** The shell command built for the headless Godot
  executable, with its quoting.
- **C++ target naming.** `nuclex.py` gives the platform-specific file name of
  a library or executable, builds target paths under `obj`, and gives the
  unit-test command.
- **Blender mesh export.** `blender-export-meshes.py`:
  - splits the command line at the first `--`;
  - chooses the selectable meshes and armatures whose names match one of the
    shell-style masks;
  - selects exactly those and makes every layer visible;
  - applies every modifier whose name does not contain `armature`;
  - dispatches on the lower-cased extension: FBX, Collada, or abort.

## How the pieces map

- **Inputs.** `os.walk` is a `Walk`, a sequence of `WalkStep(root, fileNames)`.
  `os.listdir` is a sequence of names together with an `isDir` predicate.
  `platform.system()` is a string parameter. Blender's scene is a sequence of
  `SceneObject`s plus an `array<bool>` of layer flags.
- **`os.path`.** `join`, `splitext` and `dirname` are modelled on their POSIX
  definitions in `PyPath`. `join`'s rule that an absolute second argument
  wins is kept. `str.lower` is modelled for ASCII letters only.
- **Shared loops.** The C++, C#, .NET and GDNative enumerators have the
  same nested loop over the walk. It is written once, as
  `Walks.CollectPaths`, parameterised by the filter, and proved equal to the
  specification `Walks.Collect`. Each script's method calls it with its own
  filter and variant handling:
  - `cplusplus.py` and `godot-project-builder.py` test the variant for
    truthiness (`Walks.TruthyVariant`);
  - `csharp.py` and `dotnet.py` test it against `None`.
- **The Godot asset enumerator.** `godot.py`'s `enumerate_assets` appends to
  an undefined name, so as written it stops at the first accepted file. It
  is modelled with `Walks.FindAccepted`, a walk that stops at the first file
  the filter accepts. The corrected enumerator, `Godot.EnumerateAssetsIntended`,
  uses `Walks.CollectPaths` like the others (see "Findings").
- **`fnmatch`.** `fnmatch.fnmatch` is modelled as a case-sensitive matcher for
  `*`, `?` and literal characters (`FnMatch.Match`).

## Model

| member | source | states |
|---|---|---|
| Walks.CollectPaths | scons/cplusplus.py:31-38 | the nested walk loop returns, in walk order, one path per accepted file: `join(root, name)`, or `join(variant, join(root, name))` when a variant is in use |
| Walks.FilesMembers | scons/cplusplus.py:31-32 | a (root, name) pair is visited exactly when some walk step lists the name under that root |
| Walks.KeptMembers | scons/cplusplus.py:32-38 | a path is recorded exactly when it is the entry path of a walked file that the filter accepts |
| Walks.KeptLength | scons/cplusplus.py:32-38 | at most one path per walked file, and exactly one each when every file is accepted |
| Walks.CollectBound | scons/cplusplus.py:28-40 | the list is no longer than the walk has files, and empty for a walk without files |
| Walks.KeptMonotone | scons/cplusplus.py:34 | a wider filter returns an order-preserving super-list of a narrower one |
| Walks.KeptAll | scons/godot-project-builder.py:63-68 | without a filter the k-th path is the entry path of the k-th walked file |
| Walks.TruthyVariantPaths | scons/cplusplus.py:35-38 | testing the variant for truthiness changes no recorded path, because an empty variant joins to nothing; applying the test twice is the same as once |
| Walks.TruthyVariantSame | scons/cplusplus.py:35-38 | so the truthiness test gives the same enumeration as using the variant as given, an empty one included |
| Walks.VariantPrepended | scons/cplusplus.py:35-38 | for a non-empty variant and a non-empty relative root, neither ending in a separator, and a relative name, the path is `root/name`, or `variant/root/name` with a variant |
| Walks.AbsoluteRootDropsVariant | scons/cplusplus.py:36 | an absolute walked root makes `join` discard the variant directory |
| Walks.ListSubdirectories | scons/godot.py:61-68 | the listing loop returns exactly the specification list of kept directories |
| Walks.SubdirectoriesMembers | scons/godot.py:63-66 | an entry is kept exactly when it is listed, is a directory and is a substring of no ignored name |
| Walks.SubdirectoriesInOrder | scons/godot.py:63-68 | the kept directories are an order-preserving sub-list of the listing |
| Walks.NothingIgnored | scons/godot-project-builder.py:13 | with the empty default ignore list every listed directory is kept |
| Walks.CollectProjectPaths | scons/godot-project-builder.py:62-68 | walking each kept subdirectory in turn records the accepted files of all the walks, subdirectory by subdirectory |
| Walks.FindAccepted | scons/godot.py:103-106 | the search finds an accepted file exactly when the walk holds one, and what it finds is walked and accepted |
| PyPath.Join | scons/cplusplus.py:36-38 | an absolute second argument replaces the first, and an absolute first argument gives an absolute result |
| PyPath.JoinAppends | scons/cplusplus.py:38 | with a relative second argument the result starts with the first argument and ends with the second |
| PyPath.SplitExt | scons/cplusplus.py:33 | the two parts concatenate back to the path, and the second is empty or a dot followed by no dot and no separator |
| PyPath.Extension | scons/cplusplus.py:33 | the extension is a suffix of the path |
| PyPath.SplitExtOf | scons/cplusplus.py:33 | for a stem that has a non-dot character and no separator, `splitext(stem + ext)` gives back `(stem, ext)` |
| PyPath.SplitExtNoDot | scons/cplusplus.py:33 | a path without a dot has an empty extension |
| PyPath.SplitExtHidden | scons/blender-export-meshes.py:91 | a last component made of one leading dot and no other dot (`.fbx`) has an empty extension |
| PyPath.DirName | scons/nuclex.py:133 | `dirname` returns a prefix of its argument that is empty, made of separators only, or does not end in a separator |
| PyPath.DirNameOfJoinFile | scons/nuclex.py:132-135 | joining a plain file name to anything `dirname` returns, then taking `dirname` again, gives that directory back |
| PyPath.SplitExtIn | scons/blender-export-meshes.py:91 | under any directory, `splitext(dir + stem + ext)` splits between the stem and the dotted extension when the stem has a non-dot character |
| PyPath.DirNameOfJoin | scons/nuclex.py:132-135 | `dirname(join(dir, name))` is `dir` for a directory without a trailing separator and a name without separators |
| PyPath.ContainmentIsPrefix | scons/cplusplus.py:34 | for a splitext extension and dotted list entries, `any(ext in s for s in list)` holds exactly when the extension is a prefix of some entry |
| PyPath.ContainsIsPrefix | scons/cplusplus.py:34 | for a dotted entry, containing an extension is the same as starting with it |
| PyPath.DottedNotInDotless | scons/cplusplus.py:34 | a string that starts with a dot never occurs in a string without dots |
| PyPath.Contains | scons/godot.py:65 | a string occurs only in strings at least as long |
| PyPath.ContainsOccurs | scons/cplusplus.py:34 | `t in s` holds exactly when `t` is the slice of `s` at some position |
| PyPath.AnyContainsExists | scons/cplusplus.py:34 | `any(t in s for s in list)` holds exactly when some entry of the list contains `t` |
| PyPath.SplitJoinWith | scons/godot-project-builder.py:130-136 | splitting at a separator undoes joining with it when no piece holds the separator |
| PyPath.Split | scons/godot-project-builder.py:130-136 | a split yields at least one piece, and no piece holds the separator |
| PyPath.LowerAppend | scons/blender-export-meshes.py:92 | lower-casing distributes over concatenation |
| PyPath.LowerIdempotent | scons/blender-export-meshes.py:92 | lower-casing a lower-cased string changes nothing |
| PyPath.RemoveAll | scons/nuclex.py:27 | `replace('.', '')` leaves no dot, never lengthens, and leaves strings without dots alone |
| PyPath.RemoveAllAppend | scons/nuclex.py:27 | removing a character distributes over concatenation |
| CPlusPlus.EnumerateHeaders | scons/cplusplus.py:12-40 | the header list is exactly the walk's header-filtered entry paths, with the variant applied when it is truthy |
| CPlusPlus.EnumerateSources | scons/cplusplus.py:44-72 | the source list is exactly the walk's source-filtered entry paths, with the variant applied when it is truthy |
| CPlusPlus.HeaderFilterExact | scons/cplusplus.py:18-34 | a file is a header exactly when its extension is a prefix of one of the seven listed extensions, compared case-sensitively |
| CPlusPlus.SourceFilterExact | scons/cplusplus.py:50-66 | a file is a source exactly when its extension is a prefix of one of the seven listed extensions |
| CPlusPlus.ExtensionlessFilesPass | scons/cplusplus.py:33-34 | a name without a dot passes both filters |
| CPlusPlus.InlineFilesInBoth | scons/cplusplus.py:12-72 | `.inl` and `.inc` files appear in both the header list and the source list |
| CPlusPlus.HeaderByPrefix | scons/cplusplus.py:18-34 | a plain stem plus any non-empty prefix of a listed header extension is a header |
| CPlusPlus.MakefilePasses | scons/cplusplus.py:65-66 | `Makefile` is both a header and a source |
| CPlusPlus.TruncatedHeaderSample | scons/cplusplus.py:21 | `a.hp` is a header |
| CPlusPlus.TruncatedInlineSample | scons/cplusplus.py:24-25 | `x.in` is a header |
| CPlusPlus.UpperCaseNotListed | scons/cplusplus.py:18-26 | no listed extension starts with `.HPP` or `.CPP` |
| CPlusPlus.UpperCaseHeaderRejected | scons/cplusplus.py:18-34 | `a.HPP` is not a header: matching is case-sensitive |
| CPlusPlus.SourceSamples | scons/cplusplus.py:50-66 | `a.cp` is a source and `a.CPP` is not |
| CPlusPlus.TwiceListed | scons/cplusplus.py:63-64 | a walk that lists the same file twice visits it twice |
| CPlusPlus.NoDeduplication | scons/cplusplus.py:63-70 | such a file is returned twice: nothing is de-duplicated |
| CSharp.EnumerateSources | scons/csharp.py:68-90 | the list is exactly the walk's filtered entry paths, with the variant applied whenever it is not `None` |
| CSharp.CSharpFilterExact | scons/csharp.py:74-84 | a file passes exactly when its extension is `''`, `.`, `.c` or `.cs` |
| CSharp.CSharpSamples | scons/csharp.py:83-84 | `main.c` and `README` pass the C# filter |
| CSharp.UpperCaseRejected | scons/csharp.py:84 | `a.CS` does not pass |
| CSharp.EmptyVariantIgnored | scons/csharp.py:85-88 | the variant `''` gives the same list as `None` |
| DotNet.EnumerateSources | scons/dotnet.py:69-92 | the list is exactly the walk's filtered entry paths, with the variant applied whenever it is not `None` |
| DotNet.DotNetFilterExact | scons/dotnet.py:75-86 | a file passes exactly when its extension is one of `''`, `.`, `.c`, `.cs`, `.v`, `.vb` |
| DotNet.TruncatedVisualBasicSample | scons/dotnet.py:77 | `x.v` passes |
| DotNet.CSharpFilterIncluded | scons/dotnet.py:75-78 | every file the C# filter accepts is accepted here |
| DotNet.CSharpIncluded | scons/dotnet.py:69-92 | on the same walk, the C# list is an order-preserving sub-list of the .NET list |
| DotNet.SourcesBound | scons/dotnet.py:80-92 | at most one path per walked file, and none for a walk without files |
| GodotProjectBuilder.EnumerateSubdirectories | scons/godot-project-builder.py:13-26 | the listing loop returns exactly the kept directories |
| GodotProjectBuilder.SubdirectoriesSelected | scons/godot-project-builder.py:21-24 | a listed entry is kept exactly when it is a directory and no ignored name contains it, in listing order |
| GodotProjectBuilder.EnumerateProjectAssets | scons/godot-project-builder.py:49-70 | every file of every kept subdirectory's walk is recorded, with the variant applied when it is truthy |
| GodotProjectBuilder.EnumerateGdnativeSources | scons/godot-project-builder.py:74-107 | the same walk, keeping only the files that pass the GDNative source filter |
| GodotProjectBuilder.GdnativeFilterExact | scons/godot-project-builder.py:82-101 | a file passes exactly when its extension is one of `''`, `.`, `.c`, `.C`, `.cp`, `.cpp`, `.cc` |
| GodotProjectBuilder.SourcesAmongAssets | scons/godot-project-builder.py:49-107 | for the same arguments the GDNative sources are an order-preserving sub-list of the assets |
| GodotProjectBuilder.EmptyVariantIgnored | scons/godot-project-builder.py:102-105 | a variant of `''` is falsy and leaves the paths alone |
| GodotProjectBuilder.ExportCommand | scons/godot-project-builder.py:130-136 | the command starts with the Godot executable path |
| GodotProjectBuilder.ExportCommandArguments | scons/godot-project-builder.py:130-136 | when the profile and export path hold no double quote, splitting the command after the executable at its quotes gives back the options, `./`, the profile and the export path |
| GodotProjectBuilder.QuoteInProfileUnbalancesQuotes | scons/godot-project-builder.py:133 | a double quote inside the profile is not escaped, so the command's quotes no longer pair up: the quote-delimited pieces cut the profile at it, and the quoting of what follows is shifted by one |
| Godot.EnumerateSubdirectories | scons/godot.py:55-68 | the listing loop returns exactly the kept directories |
| Godot.SubdirectoriesAreListedDirectories | scons/godot.py:63-66 | the result is an order-preserving sub-list of the listing, made of directories only |
| Godot.DefaultIgnoredBySubstring | scons/godot.py:55-65 | under the default `['bin', 'obj']`, the names `bin`, `in`, `o` and `bj` are ignored, while `binaries` and `src` are not |
| Godot.DefaultIgnoreEffect | scons/godot.py:55-66 | under the default ignore list, directories named `in` or `bj` are never returned, and a listed directory `binaries` always is |
| Godot.EnumerateAssets | scons/godot.py:72-112 | as written, the enumeration fails with the undefined name `headers` exactly when some walked file passes the asset filter, and otherwise returns the empty list |
| Godot.AssetFilterExact | scons/godot.py:81-106 | a file passes exactly when its extension is non-empty and a prefix of one of the sixteen asset extensions |
| Godot.ExtensionlessRejected | scons/godot.py:106 | a name without a dot never passes: the empty extension is falsy |
| Godot.AssetByPrefix | scons/godot.py:81-106 | a plain stem plus any non-empty prefix of an asset extension passes |
| Godot.TruncatedExtensionPasses | scons/godot.py:82 | `a.t` passes |
| Godot.TruncatedImportPasses | scons/godot.py:97 | `a.im` passes |
| Godot.TrailingDotPasses | scons/godot.py:106 | `a.` passes |
| Godot.SceneFileIsAsset | scons/godot.py:82 | `<stem>.tscn` passes |
| Godot.SceneFileFails | scons/godot.py:106-108 | a walk holding a scene file contains a file that passes, so the code as written fails on it |
| Godot.ExtensionlessWalkSucceeds | scons/godot.py:103-112 | a walk in which no file name has a dot holds no file that passes, so the enumeration returns the empty list |
| Godot.EnumerateAssetsIntended | scons/godot.py:100-112 | with the append made to `assets`, the list is exactly the walk's asset-filtered entry paths |
| Godot.IntendedAssetsExact | scons/godot.py:100-112 | a path is in the intended list exactly when it belongs to a walked asset file, and the list is an order-preserving sub-list of all entry paths |
| Godot.IntendedSceneFileListed | scons/godot.py:107-110 | the intended enumeration lists a scene file where the code as written fails |
| Nuclex.PlatformSpecificName | scons/nuclex.py:15-31 | on Linux: `lib` followed by the name with every dot removed; elsewhere: the name followed by `.exe` for executables or `.so` for libraries |
| Nuclex.LinuxKindsCollide | scons/nuclex.py:26-27 | on Linux a library and an executable of the same universal name get the same file name |
| Nuclex.LinuxDotsCollide | scons/nuclex.py:27 | on Linux a dot anywhere in the name makes no difference: `A.B` and `AB` collide |
| Nuclex.OtherKindsDiffer | scons/nuclex.py:28-31 | elsewhere, a library and an executable never share a file name |
| Nuclex.OtherNamesDistinct | scons/nuclex.py:28-31 | elsewhere, different universal names give different file names |
| Nuclex.CompileSharedLibrary | scons/nuclex.py:35-67 | the library target is `join('obj', <library name>)`, built from the sources of `Source` rewritten into `obj` |
| Nuclex.CompileUnitTests | scons/nuclex.py:71-116 | the test program target is `join('obj', <executable name>)`, built from the `Source` sources followed by the `Tests` sources, both rewritten into `obj` |
| Nuclex.TargetInIntermediateDirectory | scons/nuclex.py:67 | a relative universal name puts the target directly inside `obj` |
| Nuclex.AbsoluteNameEscapes | scons/nuclex.py:116 | off Linux, an absolute universal name escapes `obj`, because `join` keeps only the name |
| Nuclex.UnitTestRun | scons/nuclex.py:120-141 | the command runs the test executable with `--gtest_output=xml:` followed by the results path |
| Nuclex.UnitTestPaths | scons/nuclex.py:127-135 | for a name without separators, the executable run is `obj/<executable name>`, the one that is built, and the results go to `obj/googletest-results.xml` |
| Nuclex.ResultsBesideExecutable | scons/nuclex.py:132-135 | for any name on any system, the results file ends in `googletest-results.xml` and lies in the directory of the test executable |
| FnMatch.LiteralMatch | scons/blender-export-meshes.py:162 | a mask without wildcards matches exactly the name it spells |
| FnMatch.StarMatchesAll | scons/blender-export-meshes.py:162 | `*` matches every name |
| FnMatch.PrefixStar | scons/blender-export-meshes.py:162 | `prefix*` with a literal prefix matches exactly the names that start with the prefix |
| FnMatch.QuestionMarks | scons/blender-export-meshes.py:162 | a mask of k question marks matches exactly the names of length k |
| FnMatch.Match | scons/blender-export-meshes.py:162 | a matched name has at least as many characters as the mask has non-star characters |
| Seqs.FirstIndex | scons/blender-export-meshes.py:62 | `list.index` finds the first occurrence, or reports that there is none |
| BlenderExportMeshes.ParseArguments | scons/blender-export-meshes.py:61-69 | a missing `--` is an error; on success the output path and the masks are exactly what follows the first `--` |
| BlenderExportMeshes.ParseArgumentsOf | scons/blender-export-meshes.py:61-69 | Blender's arguments, `--`, an output path and any masks, a further `--` among them included, are taken apart again |
| BlenderExportMeshes.NothingAfterSeparator | scons/blender-export-meshes.py:62-65 | a `--` with nothing after it leaves the output path missing |
| BlenderExportMeshes.MatchingMasks | scons/blender-export-meshes.py:162 | the comprehension keeps exactly the masks that match the name |
| BlenderExportMeshes.MatchingMasksNonEmpty | scons/blender-export-meshes.py:162-163 | the match list is non-empty exactly when some mask matches |
| BlenderExportMeshes.GetMeshesMatchingMasks | scons/blender-export-meshes.py:151-166 | the loop returns exactly the specification list of chosen objects |
| BlenderExportMeshes.ChosenMembers | scons/blender-export-meshes.py:159-164 | an object is chosen exactly when it is in the scene, is a `MESH` or `ARMATURE`, is selectable, and its name matches some mask |
| BlenderExportMeshes.ChosenInOrder | scons/blender-export-meshes.py:157-166 | the chosen objects keep their scene order |
| BlenderExportMeshes.ChosenFromScene | scons/blender-export-meshes.py:159-166 | only objects of the scene are chosen |
| BlenderExportMeshes.NoMasksChooseNothing | scons/blender-export-meshes.py:162-163 | without masks nothing is chosen |
| BlenderExportMeshes.MoreMasksChooseMore | scons/blender-export-meshes.py:162-163 | adding masks never drops a chosen object, and the order is kept |
| BlenderExportMeshes.ClearSelection | scons/blender-export-meshes.py:126-130 | afterwards no object is selected |
| BlenderExportMeshes.SelectMeshes | scons/blender-export-meshes.py:170-176 | afterwards every given object is selected; only those objects may change |
| BlenderExportMeshes.SelectOnly | scons/blender-export-meshes.py:81-82 | after clearing and then selecting, an object is selected exactly when it is among the chosen ones |
| BlenderExportMeshes.MakeAllLayersVisible | scons/blender-export-meshes.py:118-122 | every layer flag is set; the number of layers is that of the array |
| BlenderExportMeshes.ApplyAllModifiersExceptArmature | scons/blender-export-meshes.py:134-147 | the modifiers applied are exactly the specification list for the mesh's modifier stack |
| BlenderExportMeshes.ModifiersToApplyExact | scons/blender-export-meshes.py:144-147 | a modifier is applied exactly when it is on the stack and its lower-cased name does not contain `armature`, in stack order |
| BlenderExportMeshes.ArmatureInAnyCase | scons/blender-export-meshes.py:145 | any spelling of `armature` in any case, anywhere in the name, keeps the modifier from being applied |
| BlenderExportMeshes.ShortNamesApplied | scons/blender-export-meshes.py:145 | names shorter than `armature` are always applied |
| BlenderExportMeshes.ExportFormatOf | scons/blender-export-meshes.py:91-100 | a format is chosen only for a four-character dotted extension |
| BlenderExportMeshes.FormatByExtension | scons/blender-export-meshes.py:91-100 | for a file name with an extension, in any directory, `.fbx` in any case gives FBX, `.dae` in any case gives Collada, and everything else aborts |
| BlenderExportMeshes.UpperCaseFbx | scons/blender-export-meshes.py:92-96 | `<dir>/<stem>.FBX` is exported as FBX |
| BlenderExportMeshes.MixedCaseCollada | scons/blender-export-meshes.py:92-98 | `<dir>/<stem>.Dae` is exported as Collada |
| BlenderExportMeshes.NoExtensionUnsupported | scons/blender-export-meshes.py:91-100 | a path without an extension aborts |
| BlenderExportMeshes.HiddenFileUnsupported | scons/blender-export-meshes.py:91-100 | a file named just `.fbx` has no extension and aborts |
| BlenderExportMeshes.AppliedModifiers | scons/blender-export-meshes.py:86-88 | one list of applied modifiers per exported mesh, in export order |
| BlenderExportMeshes.ApplyModifiers | scons/blender-export-meshes.py:86-88 | the loop over the exported meshes returns those lists |
| BlenderExportMeshes.ExportMeshes | scons/blender-export-meshes.py:52-100 | bad arguments stop the macro before anything changes. Otherwise every layer becomes visible and exactly the chosen objects are selected, and the modifiers of every chosen mesh are applied. Only then is the extension looked at: the macro exports those meshes in its format, or stops on an unsupported extension with the scene left changed, the applied modifiers included |

## Left out

- The executable locators: `_find_msbuild_executable` and `_find_msbuild_directories` in `dotnet.py` and `csharp.py`, and `_find_godot_executable` in `godot.py`. They probe environment variables and the real filesystem of the machine.
- `_call_msbuild` and `_scan_msbuild_project` in `dotnet.py`. The first is an unfinished stub. The second delegates XML parsing to a library and only prints.
- The SCons wiring, because these are calls into SCons:
  - `register_extension_methods`, `register_builder` and `setup_variant_dirs`;
  - the `Environment`, `Append`, `VariantDir`, `SharedLibrary`, `Program` and `Command` calls.
  What they are handed is modelled: `Nuclex.BuildTarget` and `Nuclex.TestRun`.
- The side effects of `_export_godot_project`: deleting an existing export and running the command. Only the command string is modelled.
- The Godot download URLs and executable-name tables in `godot.py`. They are constants that no modelled code uses.
- Blender's operators: enabling the add-ons, making a mesh the active object, `modifier_apply` itself, the FBX and Collada exporters, `quit`, `os.getcwd`, and every `print`. The exporters become the `Export` value that `BlenderExportMeshes.ExportMeshes` returns.
- BlenderExportMeshes.ApplyAllModifiersExceptArmature: returns the names handed to `modifier_apply`, taken from the stack as it was before the loop started. It does not model Blender removing applied modifiers from the list being iterated.
- BlenderExportMeshes.ExportMeshes: `die` is not defined in the script, so the unsupported-extension branch ends in a `NameError` rather than a message. It is modelled as the `UnsupportedFormat` failure, which records the modifiers already applied. The `NameError` is never caught, so the `quit()` at the end of the script is not reached and an interactive Blender stays open with the modified scene; the model has no notion of the process ending.
- FnMatch.Match: bracket classes such as `[abc]` are not modelled; `[` and `]` match themselves.
- PyPath.Lower: lower-cases ASCII letters only. Python's Unicode case mapping is not modelled.
- PyPath.Join: models POSIX paths only. Windows `ntpath`, with its drive letters and backslashes, is not modelled.
- The directory lists of `os.walk` (its `dirnames`) are not modelled, because no script reads them. Which subdirectories are walked, and in what order, is part of the `Walk` given as input.
- Nuclex.PlatformSpecificName: the doc comment in `nuclex.py` promises `libMyAwesomeLibrary.so` on Linux and `My.Awesome.Library.dll` on Windows. The code appends nothing on Linux and `.so` for libraries elsewhere. The model follows the code.
- GodotProjectBuilder.ExportCommandArguments: states the argument split for the part of the command after the executable path; that the command starts with the executable path is the ensures of `ExportCommand`.

## Findings

| source | as written | input that shows it | evidently intended | confidence | as-written member | corrected member |
|---|---|---|---|---|---|---|
| scons/godot.py:107-110 | the asset paths are appended to `headers`, a name the function never defines, while the empty `assets` list is returned | a project holding `main.tscn`: the first asset raises `NameError`, and a project without assets returns `[]` | append to `assets`, so the list of asset paths is returned | high, not executed | Godot.EnumerateAssets, Godot.SceneFileFails | Godot.EnumerateAssetsIntended, Godot.IntendedAssetsExact, Godot.IntendedSceneFileListed |
