/** `scons/blender-export-meshes.py`: the Blender macro that selects the
    meshes whose names match the masks given on the command line, applies
    their modifiers and exports them to FBX or Collada. Blender's scene is
    given as data: the objects of `bpy.data.objects` and the layer flags. */
module BlenderExportMeshes {
  import opened Wrappers
  import opened PyPath
  import opened Seqs
  import opened FnMatch

  // ----- Command line -----------------------------------------------------------------------------

  /** The separator behind which Blender hands arguments to the script. */
  const Separator: string := "--"

  /** What the script takes from its command line. */
  datatype Arguments = Arguments(outputPath: string, masks: seq<string>)

  /** `argv.index("--")` raises when there is no separator, `argv[0]` when
      nothing follows it. */
  datatype ArgumentError = MissingSeparator | MissingOutputPath

  /** The argument handling of `_main`: everything after the first `--`, the
      first of it being the output path and the rest the masks. */
  function ParseArguments(argv: seq<string>): (r: Result<Arguments, ArgumentError>)
    ensures r == Failure(MissingSeparator) <==> Separator !in argv
    ensures r.Success? ==>
      exists i :: 0 <= i < |argv| && argv[i] == Separator && Separator !in argv[..i]
                  && argv[i + 1..] == [r.value.outputPath] + r.value.masks
  {
    var i := FirstIndex(argv, Separator);
    if i == |argv| then Failure(MissingSeparator)
    else if i + 1 == |argv| then Failure(MissingOutputPath)
    else
      assert Separator !in argv[..i];
      assert argv[i + 1..] == [argv[i + 1]] + argv[i + 2..];
      Success(Arguments(argv[i + 1], argv[i + 2..]))
  }

  /** Blender's own arguments, the separator, the output path and the masks
      are taken apart again; the masks may hold a further `--`. */
  lemma ParseArgumentsOf(blenderArguments: seq<string>, outputPath: string, masks: seq<string>)
    requires Separator !in blenderArguments
    ensures ParseArguments(blenderArguments + [Separator, outputPath] + masks)
         == Success(Arguments(outputPath, masks))
  {
    var argv := blenderArguments + [Separator, outputPath] + masks;
    var i := |blenderArguments|;
    assert argv[i] == Separator;
    assert forall k :: 0 <= k < i ==> argv[k] == blenderArguments[k];
    assert FirstIndex(argv, Separator) == i;
    assert argv[i + 2..] == masks;
  }

  /** A separator with nothing behind it leaves the output path missing. */
  lemma NothingAfterSeparator(blenderArguments: seq<string>)
    requires Separator !in blenderArguments
    ensures ParseArguments(blenderArguments + [Separator]) == Failure(MissingOutputPath)
  {
    var argv := blenderArguments + [Separator];
    assert forall k :: 0 <= k < |blenderArguments| ==> argv[k] == blenderArguments[k];
    assert argv[|blenderArguments|] == Separator;
    assert FirstIndex(argv, Separator) == |blenderArguments|;
  }

  // ----- Scene objects ----------------------------------------------------------------------------

  /** An entry of `bpy.data.objects`: the fields the script reads, and the
      selection flag it writes. */
  class SceneObject {
    const name: string
    /** `ob.type`, such as `MESH` or `ARMATURE`. */
    const kind: string
    const hideSelect: bool
    const modifierNames: seq<string>
    var select: bool

    constructor(name: string, kind: string, hideSelect: bool, modifierNames: seq<string>, select: bool)
      ensures this.name == name && this.kind == kind && this.hideSelect == hideSelect
      ensures this.modifierNames == modifierNames && this.select == select
    {
      this.name := name;
      this.kind := kind;
      this.hideSelect := hideSelect;
      this.modifierNames := modifierNames;
      this.select := select;
    }
  }

  /** Meshes and armatures that are selectable are candidates for export. */
  predicate IsCandidate(o: SceneObject) {
    (o.kind == "MESH" || o.kind == "ARMATURE") && !o.hideSelect
  }

  /** `[mask for mask in masks if fnmatch.fnmatch(name, mask)]`. */
  function MatchingMasks(name: string, masks: seq<string>): (matches: seq<string>)
    ensures forall m :: m in matches <==> m in masks && Match(name, m)
    ensures |matches| <= |masks|
  {
    if masks == [] then []
    else (if Match(name, masks[0]) then [masks[0]] else []) + MatchingMasks(name, masks[1..])
  }

  /** The object is exported. */
  predicate IsChosen(o: SceneObject, masks: seq<string>) {
    IsCandidate(o) && |MatchingMasks(o.name, masks)| > 0
  }

  /** The objects `_get_meshes_matching_masks` returns, in scene order. */
  function Chosen(objects: seq<SceneObject>, masks: seq<string>): seq<SceneObject>
  {
    if objects == [] then []
    else
      var last := objects[|objects| - 1];
      Chosen(objects[..|objects| - 1], masks) + (if IsChosen(last, masks) then [last] else [])
  }

  /** `_get_meshes_matching_masks(masks)` over the scene's objects. */
  method GetMeshesMatchingMasks(objects: seq<SceneObject>, masks: seq<string>) returns (meshes: seq<SceneObject>)
    ensures meshes == Chosen(objects, masks)
  {
    meshes := [];
    for i := 0 to |objects|
      invariant meshes == Chosen(objects[..i], masks)
    {
      var ob := objects[i];
      assert objects[..i + 1][..i] == objects[..i];
      if ob.kind == "MESH" || ob.kind == "ARMATURE" {
        if !ob.hideSelect {
          var matches := MatchingMasks(ob.name, masks);
          if |matches| > 0 {
            meshes := meshes + [ob];
          }
        }
      }
    }
    assert objects[..|objects|] == objects;
  }

  /** A name has a matching mask exactly when some mask matches it. */
  lemma MatchingMasksNonEmpty(name: string, masks: seq<string>)
    ensures |MatchingMasks(name, masks)| > 0 <==> exists m :: m in masks && Match(name, m)
  {
    var matches := MatchingMasks(name, masks);
    if |matches| > 0 {
      assert matches[0] in matches;
    }
  }

  /** An object is chosen exactly when it is in the scene, is a selectable
      mesh or armature, and its name matches some mask. */
  lemma {:induction false} ChosenMembers(objects: seq<SceneObject>, masks: seq<string>, o: SceneObject)
    ensures o in Chosen(objects, masks) <==>
      o in objects && IsCandidate(o) && exists m :: m in masks && Match(o.name, m)
  {
    MatchingMasksNonEmpty(o.name, masks);
    if objects != [] {
      var init := objects[..|objects| - 1];
      ChosenMembers(init, masks, o);
      assert objects == init + [objects[|objects| - 1]];
    }
  }

  /** The chosen objects keep their scene order. */
  lemma {:induction false} ChosenInOrder(objects: seq<SceneObject>, masks: seq<string>)
    ensures IsSubsequence(Chosen(objects, masks), objects)
  {
    if objects != [] {
      var init := objects[..|objects| - 1];
      var last := objects[|objects| - 1];
      ChosenInOrder(init, masks);
      assert objects == init + [last];
      if IsChosen(last, masks) {
        SubsequenceAppendBoth(Chosen(init, masks), init, last);
      } else {
        assert Chosen(objects, masks) == Chosen(init, masks);
        SubsequenceAppendRight(Chosen(init, masks), init, last);
      }
    }
  }

  /** Without masks nothing is exported. */
  lemma {:induction false} NoMasksChooseNothing(objects: seq<SceneObject>)
    ensures Chosen(objects, []) == []
  {
    if objects != [] {
      NoMasksChooseNothing(objects[..|objects| - 1]);
    }
  }

  /** More masks never choose fewer objects: every object the smaller mask
      list chooses is still chosen, in the same order. */
  lemma {:induction false} MoreMasksChooseMore(objects: seq<SceneObject>, masks: seq<string>, more: seq<string>)
    requires forall m :: m in masks ==> m in more
    ensures IsSubsequence(Chosen(objects, masks), Chosen(objects, more))
  {
    if objects != [] {
      var init := objects[..|objects| - 1];
      var last := objects[|objects| - 1];
      MoreMasksChooseMore(init, masks, more);
      if IsChosen(last, masks) {
        ChosenWithMoreMasks(last, masks, more);
        SubsequenceAppendBoth(Chosen(init, masks), Chosen(init, more), last);
      } else {
        assert Chosen(objects, masks) == Chosen(init, masks);
        if IsChosen(last, more) {
          SubsequenceAppendRight(Chosen(init, masks), Chosen(init, more), last);
        } else {
          assert Chosen(objects, more) == Chosen(init, more);
        }
      }
    }
  }

  /** An object chosen by some masks is chosen by any list holding them. */
  lemma ChosenWithMoreMasks(o: SceneObject, masks: seq<string>, more: seq<string>)
    requires forall m :: m in masks ==> m in more
    requires IsChosen(o, masks)
    ensures IsChosen(o, more)
  {
    MatchingMasksNonEmpty(o.name, masks);
    MatchingMasksNonEmpty(o.name, more);
  }

  /** Only objects of the scene are chosen. */
  lemma ChosenFromScene(objects: seq<SceneObject>, masks: seq<string>)
    ensures forall o :: o in Chosen(objects, masks) ==> o in objects
  {
    forall o | o in Chosen(objects, masks) ensures o in objects {
      ChosenMembers(objects, masks, o);
    }
  }

  // ----- Selection and layers ---------------------------------------------------------------------

  /** `_clear_selection()`: every object is deselected. */
  method ClearSelection(objects: seq<SceneObject>)
    modifies set o | o in objects
    ensures forall o :: o in objects ==> !o.select
  {
    for i := 0 to |objects|
      invariant forall o :: o in objects[..i] ==> !o.select
    {
      objects[i].select := false;
      assert objects[..i + 1] == objects[..i] + [objects[i]];
    }
    assert objects[..|objects|] == objects;
  }

  /** `_select_meshes(meshes)`: every given object is selected, and no other
      object is touched. */
  method SelectMeshes(meshes: seq<SceneObject>)
    modifies set o | o in meshes
    ensures forall o :: o in meshes ==> o.select
  {
    for i := 0 to |meshes|
      invariant forall o :: o in meshes[..i] ==> o.select
    {
      meshes[i].select := true;
      assert meshes[..i + 1] == meshes[..i] + [meshes[i]];
    }
    assert meshes[..|meshes|] == meshes;
  }

  /** Clearing and then selecting, as `_main` does: afterwards exactly the
      given objects are selected. */
  method SelectOnly(objects: seq<SceneObject>, meshes: seq<SceneObject>)
    requires forall o :: o in meshes ==> o in objects
    modifies set o | o in objects
    ensures forall o :: o in objects ==> (o.select <==> o in meshes)
  {
    ClearSelection(objects);
    SelectMeshes(meshes);
  }

  /** `_make_all_layers_visible()`: every layer flag is set. */
  method MakeAllLayersVisible(layers: array<bool>)
    modifies layers
    ensures forall i :: 0 <= i < layers.Length ==> layers[i]
  {
    for i := 0 to layers.Length
      invariant forall k :: 0 <= k < i ==> layers[k]
    {
      layers[i] := true;
    }
  }

  // ----- Modifiers --------------------------------------------------------------------------------

  const ArmatureWord: string := "armature"

  /** `'armature' in modifier.name.lower()`. */
  predicate IsArmatureModifier(modifierName: string) {
    Contains(Lower(modifierName), ArmatureWord)
  }

  /** The modifiers applied, in the order of the modifier stack. */
  function ModifiersToApply(modifierNames: seq<string>): seq<string>
  {
    if modifierNames == [] then []
    else
      var last := modifierNames[|modifierNames| - 1];
      ModifiersToApply(modifierNames[..|modifierNames| - 1])
        + (if IsArmatureModifier(last) then [] else [last])
  }

  /** The names `_apply_all_modifiers_except_armature(mesh)` hands to
      `modifier_apply`, one call per name. */
  method ApplyAllModifiersExceptArmature(mesh: SceneObject) returns (applied: seq<string>)
    ensures applied == ModifiersToApply(mesh.modifierNames)
  {
    applied := [];
    for i := 0 to |mesh.modifierNames|
      invariant applied == ModifiersToApply(mesh.modifierNames[..i])
    {
      var modifierName := mesh.modifierNames[i];
      assert mesh.modifierNames[..i + 1][..i] == mesh.modifierNames[..i];
      if !Contains(Lower(modifierName), ArmatureWord) {
        applied := applied + [modifierName];
      }
    }
    assert mesh.modifierNames[..|mesh.modifierNames|] == mesh.modifierNames;
  }

  /** A modifier is applied exactly when it is on the stack and its
      lower-cased name does not contain `armature`; the stack order is kept. */
  lemma {:induction false} ModifiersToApplyExact(modifierNames: seq<string>)
    ensures forall n :: n in ModifiersToApply(modifierNames) <==> n in modifierNames && !IsArmatureModifier(n)
    ensures IsSubsequence(ModifiersToApply(modifierNames), modifierNames)
  {
    if modifierNames != [] {
      var init := modifierNames[..|modifierNames| - 1];
      var last := modifierNames[|modifierNames| - 1];
      ModifiersToApplyExact(init);
      assert modifierNames == init + [last];
      if IsArmatureModifier(last) {
        assert ModifiersToApply(modifierNames) == ModifiersToApply(init);
        SubsequenceAppendRight(ModifiersToApply(init), init, last);
      } else {
        SubsequenceAppendBoth(ModifiersToApply(init), init, last);
      }
    }
  }

  /** `t` occurs in any string that has it in the middle. */
  lemma {:induction false} ContainsInfix(before: string, t: string, after: string)
    ensures Contains(before + t + after, t)
    decreases |before|
  {
    if before == [] {
      assert before + t + after == t + after;
    } else {
      ContainsInfix(before[1..], t, after);
      assert (before + t + after)[1..] == before[1..] + t + after;
    }
  }

  /** Any spelling of `armature` anywhere in the name keeps the modifier from
      being applied, whatever the case of its letters. */
  lemma ArmatureInAnyCase(before: string, word: string, after: string)
    requires Lower(word) == ArmatureWord
    ensures IsArmatureModifier(before + word + after)
  {
    LowerAppend(before + word, after);
    LowerAppend(before, word);
    ContainsInfix(Lower(before), ArmatureWord, Lower(after));
  }

  /** Names shorter than `armature` are always applied. */
  lemma ShortNamesApplied(modifierName: string)
    requires |modifierName| < |ArmatureWord|
    ensures !IsArmatureModifier(modifierName)
  {
  }

  // ----- Export format ----------------------------------------------------------------------------

  datatype ExportFormat = Fbx | Collada

  /** The dispatch at the end of `_main`: the lower-cased `splitext`
      extension selects the exporter; `None` is the abort. */
  function ExportFormatOf(outputPath: string): (r: Option<ExportFormat>)
    ensures r.Some? ==> |Extension(outputPath)| == 4 && Extension(outputPath)[0] == ExtSep
  {
    var extension := Lower(Extension(outputPath));
    if extension == ".fbx" then Some(Fbx)
    else if extension == ".dae" then Some(Collada)
    else None
  }

  /** For a file with an extension, in any directory, the format is decided
      by the extension alone, case-insensitively. */
  lemma FormatByExtension(directory: string, stem: string, extension: string)
    requires directory == [] || directory[|directory| - 1] == Sep
    requires Sep !in stem && exists k :: 0 <= k < |stem| && stem[k] != ExtSep
    requires |extension| > 0 && IsExtension(extension)
    ensures ExportFormatOf(directory + stem + extension)
         == if Lower(extension) == ".fbx" then Some(Fbx)
            else if Lower(extension) == ".dae" then Some(Collada)
            else None
  {
    SplitExtIn(directory, stem, extension);
  }

  /** An upper-case `.FBX` is exported as FBX. */
  lemma UpperCaseFbx(directory: string, stem: string)
    requires directory == [] || directory[|directory| - 1] == Sep
    requires Sep !in stem && |stem| > 0 && stem[0] != ExtSep
    ensures ExportFormatOf(directory + stem + ".FBX") == Some(Fbx)
  {
    assert IsExtension(".FBX");
    FormatByExtension(directory, stem, ".FBX");
    assert Lower(".FBX") == ".fbx";
  }

  /** `.Dae` in mixed case is exported as Collada. */
  lemma MixedCaseCollada(directory: string, stem: string)
    requires directory == [] || directory[|directory| - 1] == Sep
    requires Sep !in stem && |stem| > 0 && stem[0] != ExtSep
    ensures ExportFormatOf(directory + stem + ".Dae") == Some(Collada)
  {
    assert IsExtension(".Dae");
    FormatByExtension(directory, stem, ".Dae");
    assert Lower(".Dae") == ".dae";
  }

  /** A path without an extension aborts. */
  lemma NoExtensionUnsupported(outputPath: string)
    requires ExtSep !in outputPath
    ensures ExportFormatOf(outputPath) == None
  {
    SplitExtNoDot(outputPath);
  }

  /** A hidden file named just `.fbx` has no extension and aborts. */
  lemma HiddenFileUnsupported(directory: string)
    requires directory == [] || directory[|directory| - 1] == Sep
    ensures ExportFormatOf(directory + ".fbx") == None
  {
    SplitExtHidden(directory, ".fbx");
  }

  // ----- The macro --------------------------------------------------------------------------------

  /** What is handed to the exporter. */
  datatype Export = Export(format: ExportFormat, outputPath: string, meshes: seq<SceneObject>,
                           appliedModifiers: seq<seq<string>>)

  /** Why the macro stops: bad arguments, or `die` for any other extension.
      The latter is reached only after the modifiers of the chosen meshes have
      been applied, so it records them. */
  datatype ExportError =
    | InvalidArguments(reason: ArgumentError)
    | UnsupportedFormat(extension: string, appliedModifiers: seq<seq<string>>)

  /** The modifiers applied to each exported mesh, in export order. */
  function AppliedModifiers(meshes: seq<SceneObject>): (applied: seq<seq<string>>)
    ensures |applied| == |meshes|
    ensures forall k :: 0 <= k < |meshes| ==> applied[k] == ModifiersToApply(meshes[k].modifierNames)
  {
    if meshes == [] then []
    else AppliedModifiers(meshes[..|meshes| - 1]) + [ModifiersToApply(meshes[|meshes| - 1].modifierNames)]
  }

  /** The loop of `_main` that applies the modifiers of every exported mesh. */
  method ApplyModifiers(meshes: seq<SceneObject>) returns (applied: seq<seq<string>>)
    ensures applied == AppliedModifiers(meshes)
  {
    applied := [];
    for i := 0 to |meshes|
      invariant applied == AppliedModifiers(meshes[..i])
    {
      var names := ApplyAllModifiersExceptArmature(meshes[i]);
      assert meshes[..i + 1][..i] == meshes[..i];
      applied := applied + [names];
    }
    assert meshes[..|meshes|] == meshes;
  }

  /** `_main()`, with the add-on enabling, the messages and the exporters
      themselves left out. The scene is changed before the format is looked
      at, so an unsupported extension still leaves every layer visible,
      exactly the chosen meshes selected and their modifiers applied. */
  method ExportMeshes(argv: seq<string>, objects: seq<SceneObject>, layers: array<bool>)
    returns (r: Result<Export, ExportError>)
    modifies layers, set o | o in objects
    ensures ParseArguments(argv).Failure? ==>
      && r == Failure(InvalidArguments(ParseArguments(argv).error))
      && layers[..] == old(layers[..])
      && forall o :: o in objects ==> o.select == old(o.select)
    ensures ParseArguments(argv).Success? ==>
      var arguments := ParseArguments(argv).value;
      var chosen := Chosen(objects, arguments.masks);
      && (forall i :: 0 <= i < layers.Length ==> layers[i])
      && (forall o :: o in objects ==> (o.select <==> o in chosen))
      && r == match ExportFormatOf(arguments.outputPath)
              case Some(format) => Success(Export(format, arguments.outputPath, chosen, AppliedModifiers(chosen)))
              case None => Failure(UnsupportedFormat(Lower(Extension(arguments.outputPath)), AppliedModifiers(chosen)))
  {
    var parsed := ParseArguments(argv);
    if parsed.Failure? {
      return Failure(InvalidArguments(parsed.error));
    }
    var outputPath := parsed.value.outputPath;
    var masks := parsed.value.masks;

    MakeAllLayersVisible(layers);
    var meshes := GetMeshesMatchingMasks(objects, masks);

    ChosenFromScene(objects, masks);
    SelectOnly(objects, meshes);
    var applied := ApplyModifiers(meshes);

    var format := ExportFormatOf(outputPath);
    match format {
      case Some(f) => r := Success(Export(f, outputPath, meshes, applied));
      case None => r := Failure(UnsupportedFormat(Lower(Extension(outputPath)), applied));
    }
  }
}
