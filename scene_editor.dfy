/**
 * SceneEditor's bookkeeping: the point-light ID maps, the single-element selection
 * and its category, the three gizmos' visibility, the drag-or-click mouse state,
 * the object-to-path attachment map and the selected path, the Euler-rotation table
 * beside the scene's model instances, and the scene-dirty flag.
 *
 * The scene container is represented by the parts the editor reads and changes
 * (lights, paths, models and their instances, the camera count and active camera);
 * the editor scene by its marker instances for cameras, point lights and keyframes.
 * GUI buttons, message boxes, file dialogs, the pickers, the gizmos' beginAction and
 * the mouse-hold timer's clock are inputs.
 */
module SceneEditing {
  import opened Basics
  import opened SceneBookkeeping

  datatype ObjectType = Model | Camera | Light | Keyframe

  datatype GizmoType = Translate | Rotate | Scale

  datatype MouseEventType = LeftButtonDown | LeftButtonUp | Move | OtherMouseEvent

  /** A release sooner than this many seconds after the press is a click. */
  const ClickTime: real := 0.2

  /**
   * findEditorModelInstanceID: the index of the first marker that is the given
   * instance, or (uint32_t)-1 when there is none.
   */
  method FindEditorModelInstanceID(markers: seq<InstanceId>, instance: InstanceId) returns (id: nat)
    requires |markers| < Uint32Max
    ensures id == Uint32Max <==> instance !in markers
    ensures id != Uint32Max ==>
      id < |markers| && markers[id] == instance && forall j :: 0 <= j < id ==> markers[j] != instance
    ensures id != Uint32Max ==> id == FirstIndexOf(markers, instance)
  {
    var i: nat := 0;
    while i < |markers|
      invariant i <= |markers|
      invariant forall j :: 0 <= j < i ==> markers[j] != instance
    {
      if markers[i] == instance {
        return i;
      }
      i := i + 1;
    }
    return Uint32Max;
  }

  /**
   * Where setActiveModelInstance leaves the selected model and instance: the
   * instance's position when the first model with its asset holds it, otherwise the
   * current selection.
   */
  function InstancePosition(models: seq<SceneModel>, instances: seq<seq<InstanceId>>,
                            inst: ModelInstance, current: (nat, nat)): (r: (nat, nat))
    requires |instances| == |models|
    ensures r == current || (r.0 < |models| && r.1 < |instances[r.0]|
                             && models[r.0].asset == inst.asset && instances[r.0][r.1] == inst.id)
  {
    var m := ModelIndexOf(models, inst.asset);
    if m < |models| && inst.id in instances[m] then (m, FirstIndexOf(instances[m], inst.id)) else current
  }

  /**
   * After addModelInstance, selecting the new instance finds it where it was appended,
   * at index count, provided it is a fresh ID and no earlier model shares the
   * selected model's asset (otherwise the search stops in that earlier model).
   */
  lemma AddedInstanceFound(t: ModelTables, id: InstanceId, rotation: Vec3, current: (nat, nat))
    requires TablesValid(t) && t.models != []
    requires forall j :: 0 <= j < t.selectedModel ==> t.models[j].asset != t.models[t.selectedModel].asset
    requires id !in t.instances[t.selectedModel]
    ensures var r := AddInstance(t, id, rotation);
      InstancePosition(r.models, r.instances, ModelInstance(id, t.models[t.selectedModel].asset), current)
        == (t.selectedModel, |t.instances[t.selectedModel]|)
  {
    var r := AddInstance(t, id, rotation);
    var asset := t.models[t.selectedModel].asset;
    assert ModelIndexOf(r.models, asset) == t.selectedModel;
    FirstIndexOfAppended(t.instances[t.selectedModel], id);
  }

  /**
   * setActiveModelInstance's search: scans the models for the instance's asset; in
   * the first model that has it, scans for the instance. Returns the position found,
   * or `current` (the selection as it was) when there is none.
   */
  method FindModelInstance(models: seq<SceneModel>, instances: seq<seq<InstanceId>>,
                           inst: ModelInstance, current: (nat, nat)) returns (r: (nat, nat))
    requires |instances| == |models|
    ensures r == InstancePosition(models, instances, inst, current)
  {
    var modelID: nat := 0;
    while modelID < |models|
      invariant modelID <= |models|
      invariant forall j :: 0 <= j < modelID ==> models[j].asset != inst.asset
    {
      if models[modelID].asset == inst.asset {
        var instanceID: nat := 0;
        while instanceID < |instances[modelID]|
          invariant instanceID <= |instances[modelID]|
          invariant forall j :: 0 <= j < instanceID ==> instances[modelID][j] != inst.id
        {
          if instances[modelID][instanceID] == inst.id {
            return (modelID, instanceID);
          }
          instanceID := instanceID + 1;
        }
        return current;
      }
      modelID := modelID + 1;
    }
    return current;
  }

  /**
   * setObjectPath's loop: the index of the LAST path that is `ref` (the loop does
   * not stop at a match), or kNoPath when none is.
   */
  method FindPathID(paths: seq<ScenePath>, ref: PathRef) returns (id: nat)
    requires |paths| < NoPath
    ensures id == NoPath <==> ref !in PathRefs(paths)
    ensures id != NoPath ==>
      id < |paths| && paths[id].ref == ref && forall j :: id < j < |paths| ==> paths[j].ref != ref
  {
    id := NoPath;
    var i: nat := 0;
    while i < |paths|
      invariant i <= |paths|
      invariant id == NoPath ==> forall j :: 0 <= j < i ==> paths[j].ref != ref
      invariant id != NoPath ==> id < i && paths[id].ref == ref && forall j :: id < j < i ==> paths[j].ref != ref
    {
      if paths[i].ref == ref {
        id := i;
      }
      i := i + 1;
    }
    if id == NoPath {
      assert forall r :: r in PathRefs(paths) ==> r != ref;
    } else {
      assert paths[id].ref in PathRefs(paths);
    }
  }

  /** deletePath's loop: the map entry of every attached object is erased. */
  method EraseAttached(objToPath: map<ObjectId, PathRef>, attached: set<ObjectId>) returns (m: map<ObjectId, PathRef>)
    ensures m == objToPath - attached
  {
    m := objToPath;
    var rest := attached;
    while rest != {}
      invariant rest <= attached
      invariant m == objToPath - (attached - rest)
      decreases |rest|
    {
      var obj :| obj in rest;
      m := m - {obj};
      rest := rest - {obj};
    }
  }

  class SceneEditor {
    // --- the scene being edited ---
    var lights: seq<LightKind>
    var paths: seq<ScenePath>
    var models: seq<SceneModel>
    var instances: seq<seq<InstanceId>>
    var cameraCount: nat
    var activeCamera: nat

    // --- the editor scene: marker models and their instances ---
    const cameraModel: AssetId
    const lightModel: AssetId
    const keyframeModel: AssetId
    /** One marker per scene camera, in camera order. */
    var cameraMarkers: seq<InstanceId>
    /** One marker per point light, in editor-ID order. */
    var lightMarkers: seq<InstanceId>
    /** One marker per keyframe of the edited path. */
    const keyframeMarkers: seq<InstanceId>

    // --- the editor's own state ---
    var lightIDEditorToScene: map<nat, nat>
    var lightIDSceneToEditor: map<nat, nat>
    var selectedInstances: set<InstanceId>
    var selectedObjectType: ObjectType
    var activeGizmoType: GizmoType
    /** The gizmo types whose mGizmos slot holds a gizmo. */
    const gizmoPresent: set<GizmoType>
    /** The gizmos currently shown. */
    var gizmoVisible: set<GizmoType>
    var gizmoBeingDragged: bool
    var sceneDirty: bool
    /** The mouse-hold timer's two latest update times, in seconds. */
    var holdTimerPrevious: real
    var holdTimerCurrent: real
    var objToPathMap: map<ObjectId, PathRef>
    var selectedPath: nat
    /** Whether a path editor is open (mpPathEditor != nullptr). */
    var pathEditorOpen: bool
    var selectedLight: nat
    var selectedModel: nat
    var selectedModelInstance: nat
    var instanceEulerRotations: seq<seq<Vec3>>
    /** The keyframe indices handed to the path editor's setActiveFrame, oldest first. */
    var requestedFrames: seq<nat>
    /** The objects the active gizmo's delta was applied to, oldest first. */
    var transformed: seq<ObjectType>

    /** The category select assigns to an instance of the given asset. */
    function CategoryOf(asset: AssetId): ObjectType
    {
      if asset == cameraModel then Camera
      else if asset == lightModel then Light
      else if asset == keyframeModel then Keyframe
      else Model
    }

    /** The scene's instance lists with the rotation table and the model selection. */
    function Tables(): ModelTables
      reads this`models, this`instances, this`instanceEulerRotations, this`selectedModel, this`selectedModelInstance
    {
      ModelTables(models, instances, instanceEulerRotations, selectedModel, selectedModelInstance)
    }

    /** The rotation table is parallel to the instance lists and the model selection is in range. */
    ghost predicate ModelsValid()
      reads this`models, this`instances, this`instanceEulerRotations, this`selectedModel, this`selectedModelInstance
    {
      TablesValid(Tables())
    }

    /** One marker per point light, and the two light-ID maps of the scene's lights. */
    ghost predicate LightsValid()
      reads this`lights, this`lightMarkers, this`lightIDEditorToScene, this`lightIDSceneToEditor
    {
      && LightMarkersMatch(lights, lightMarkers)
      && LightIDMaps(lights, lightIDEditorToScene, lightIDSceneToEditor)
    }

    ghost predicate PathsValid()
      reads this`paths, this`objToPathMap, this`selectedPath
    {
      && AttachmentsConsistent(paths, objToPathMap)
      && |paths| < NoPath
      && (|paths| > 0 ==> selectedPath < |paths|)
    }

    /** One marker per camera, and once the scene has a camera the active camera is one of them. */
    ghost predicate CamerasValid()
      reads this`cameraMarkers, this`cameraCount, this`activeCamera
    {
      |cameraMarkers| == cameraCount && (cameraCount > 0 ==> activeCamera < cameraCount)
    }

    /** Marker indices fit in uint32_t below the not-found value, and the marker models are distinct. */
    ghost predicate MarkersBounded()
      reads this`cameraMarkers, this`lightMarkers
    {
      && |cameraMarkers| < Uint32Max && |lightMarkers| < Uint32Max && |keyframeMarkers| < Uint32Max
      && cameraModel != lightModel && cameraModel != keyframeModel && lightModel != keyframeModel
    }

    /** The selection holds at most one instance. */
    ghost predicate SelectionValid()
      reads this`selectedInstances
    {
      |selectedInstances| <= 1
    }

    ghost predicate Valid()
      reads this`selectedInstances, this`models, this`instances, this`instanceEulerRotations,
        this`selectedModel, this`selectedModelInstance, this`lights, this`lightMarkers, this`lightIDEditorToScene,
        this`lightIDSceneToEditor, this`paths, this`objToPathMap, this`selectedPath, this`cameraMarkers,
        this`cameraCount, this`activeCamera
    {
      && SelectionValid()
      && ModelsValid()
      && LightsValid()
      && PathsValid()
      && CamerasValid()
      && MarkersBounded()
    }

    /**
     * The editor state initializeEditorObjects sets up for a scene: one camera marker
     * per camera, one light marker per point light, the light-ID maps, the rotation
     * table read from the instances, and the attachment map read from the paths.
     * A scene without cameras gets no camera markers.
     */
    constructor (lights: seq<LightKind>, paths: seq<ScenePath>, models: seq<SceneModel>,
                 instances: seq<seq<InstanceId>>, rotations: seq<seq<Vec3>>,
                 cameraCount: nat, activeCamera: nat,
                 cameraModel: AssetId, lightModel: AssetId, keyframeModel: AssetId,
                 cameraMarkers: seq<InstanceId>, lightMarkers: seq<InstanceId>,
                 keyframeMarkers: seq<InstanceId>, gizmoPresent: set<GizmoType>)
      requires TablesValid(ModelTables(models, instances, rotations, 0, 0))
      requires cameraModel != lightModel && cameraModel != keyframeModel && lightModel != keyframeModel
      requires |cameraMarkers| == cameraCount && (cameraCount > 0 ==> activeCamera < cameraCount) && cameraCount < Uint32Max
      requires LightMarkersMatch(lights, lightMarkers) && |lightMarkers| < Uint32Max
      requires |keyframeMarkers| < Uint32Max
      requires forall i, j :: 0 <= i < j < |paths| ==> paths[i].ref != paths[j].ref
      requires AttachmentsDisjoint(paths) && |paths| < NoPath
      ensures Valid()
      ensures this.lights == lights && this.paths == paths && this.models == models && this.instances == instances
      ensures instanceEulerRotations == rotations
      ensures objToPathMap == AttachmentMap(paths, |paths|)
      ensures selectedInstances == {} && !gizmoBeingDragged && !sceneDirty && selectedPath == 0
      ensures gizmoVisible == {} && this.gizmoPresent == gizmoPresent && !pathEditorOpen
      ensures this.cameraCount == cameraCount && this.activeCamera == activeCamera
      ensures this.cameraMarkers == cameraMarkers && this.lightMarkers == lightMarkers
      ensures this.keyframeMarkers == keyframeMarkers
      ensures this.cameraModel == cameraModel && this.lightModel == lightModel && this.keyframeModel == keyframeModel
      ensures requestedFrames == [] && transformed == []
      ensures activeGizmoType == Translate && selectedObjectType == Model
      ensures holdTimerPrevious == 0.0 && holdTimerCurrent == 0.0
      ensures selectedLight == 0 && selectedModel == 0 && selectedModelInstance == 0
    {
      var attachments := BuildAttachmentMap(paths);
      AttachmentMapConsistent(paths);
      var editorToScene, sceneToEditor := BuildLightIDMaps(lights);
      RebuiltMapsAreLightIDMaps(lights, editorToScene, sceneToEditor);
      this.lights, this.paths, this.models, this.instances := lights, paths, models, instances;
      this.cameraCount, this.activeCamera := cameraCount, activeCamera;
      this.cameraModel, this.lightModel, this.keyframeModel := cameraModel, lightModel, keyframeModel;
      this.cameraMarkers, this.lightMarkers, this.keyframeMarkers := cameraMarkers, lightMarkers, keyframeMarkers;
      this.gizmoPresent, gizmoVisible, activeGizmoType := gizmoPresent, {}, Translate;
      selectedObjectType, selectedInstances, gizmoBeingDragged, sceneDirty := Model, {}, false, false;
      holdTimerPrevious, holdTimerCurrent := 0.0, 0.0;
      selectedPath, pathEditorOpen := 0, false;
      selectedLight, selectedModel, selectedModelInstance := 0, 0, 0;
      instanceEulerRotations, requestedFrames, transformed := rotations, [], [];
      objToPathMap, lightIDEditorToScene, lightIDSceneToEditor := attachments, editorToScene, sceneToEditor;
    }

    /** rebuildLightIDMap: both maps are rebuilt from the scene's lights. */
    method RebuildLightIDMap()
      modifies this`lightIDEditorToScene, this`lightIDSceneToEditor
      ensures LightIDMaps(lights, lightIDEditorToScene, lightIDSceneToEditor)
    {
      var editorToScene, sceneToEditor := BuildLightIDMaps(lights);
      RebuiltMapsAreLightIDMaps(lights, editorToScene, sceneToEditor);
      lightIDEditorToScene, lightIDSceneToEditor := editorToScene, sceneToEditor;
    }

    /**
     * setActiveGizmo: the active type becomes `gizmo`. When that gizmo exists, a
     * previously active gizmo of another type is hidden and `gizmo` is shown or hidden
     * as `show` says; otherwise no visibility changes.
     */
    method SetActiveGizmo(gizmo: GizmoType, show: bool)
      requires gizmo in gizmoPresent && activeGizmoType != gizmo ==> activeGizmoType in gizmoPresent
      modifies this`gizmoVisible, this`activeGizmoType
      ensures activeGizmoType == gizmo
      ensures gizmo in gizmoPresent ==> (gizmo in gizmoVisible <==> show)
      ensures gizmo in gizmoPresent && old(activeGizmoType) != gizmo ==> old(activeGizmoType) !in gizmoVisible
      ensures gizmo in gizmoPresent && show ==>
        gizmoVisible == old(gizmoVisible) - {old(activeGizmoType)} + {gizmo}
      ensures gizmo in gizmoPresent && !show ==>
        gizmoVisible == old(gizmoVisible) - {old(activeGizmoType), gizmo}
      ensures gizmo !in gizmoPresent ==> gizmoVisible == old(gizmoVisible)
    {
      if gizmo in gizmoPresent {
        if activeGizmoType != gizmo {
          gizmoVisible := gizmoVisible - {activeGizmoType};
          gizmoVisible := if show then gizmoVisible + {gizmo} else gizmoVisible - {gizmo};
        } else {
          gizmoVisible := if show then gizmoVisible + {activeGizmoType} else gizmoVisible - {activeGizmoType};
        }
      }
      activeGizmoType := gizmo;
    }

    /** deselect: the selection becomes empty and the active gizmo is hidden; the active type stays. */
    method Deselect()
      modifies this`gizmoVisible, this`activeGizmoType, this`selectedInstances
      ensures selectedInstances == {}
      ensures activeGizmoType == old(activeGizmoType)
      ensures gizmoVisible == if activeGizmoType in gizmoPresent then old(gizmoVisible) - {activeGizmoType} else old(gizmoVisible)
    {
      SetActiveGizmo(activeGizmoType, false);
      selectedInstances := {};
    }

    /**
     * select: an instance that is already selected changes nothing. Otherwise the
     * selection becomes exactly that instance, the active gizmo is shown, and the
     * instance's asset decides the category and what the selection points at.
     */
    method Select(inst: ModelInstance)
      requires SelectionValid() && ModelsValid() && LightsValid() && CamerasValid() && MarkersBounded()
      modifies this`selectedInstances, this`gizmoVisible, this`activeGizmoType, this`selectedObjectType,
               this`activeCamera, this`selectedLight, this`requestedFrames, this`selectedModel,
               this`selectedModelInstance
      ensures SelectionValid() && ModelsValid() && CamerasValid()
      ensures old(inst.id in selectedInstances) ==> unchanged(this)
      ensures inst.id !in old(selectedInstances) ==>
        && selectedInstances == {inst.id}
        && selectedObjectType == CategoryOf(inst.asset)
        && activeGizmoType == old(activeGizmoType)
        && gizmoVisible == (if activeGizmoType in gizmoPresent then old(gizmoVisible) + {activeGizmoType} else old(gizmoVisible))
      ensures inst.id !in old(selectedInstances) ==>
        activeCamera == if CategoryOf(inst.asset) == Camera && inst.id in cameraMarkers
          then FirstIndexOf(cameraMarkers, inst.id) else old(activeCamera)
      ensures inst.id !in old(selectedInstances) ==>
        selectedLight == if CategoryOf(inst.asset) == Light && inst.id in lightMarkers
          then PointLights(lights)[FirstIndexOf(lightMarkers, inst.id)] else old(selectedLight)
      ensures inst.id !in old(selectedInstances) ==>
        requestedFrames == old(requestedFrames) + if CategoryOf(inst.asset) == Keyframe && inst.id in keyframeMarkers
          then [FirstIndexOf(keyframeMarkers, inst.id)] else []
      ensures inst.id !in old(selectedInstances) ==>
        (selectedModel, selectedModelInstance) == if CategoryOf(inst.asset) == Model
          then InstancePosition(models, instances, inst, old((selectedModel, selectedModelInstance)))
          else old((selectedModel, selectedModelInstance))
    {
      if inst.id in selectedInstances {
        return;
      }
      SelectOnly(inst.id);
      SelectTarget(inst);
    }

    /** The first half of select: deselect, show the active gizmo, and make the instance the whole selection. */
    method SelectOnly(id: InstanceId)
      modifies this`selectedInstances, this`gizmoVisible, this`activeGizmoType
      ensures selectedInstances == {id}
      ensures activeGizmoType == old(activeGizmoType)
      ensures gizmoVisible == (if activeGizmoType in gizmoPresent then old(gizmoVisible) + {activeGizmoType} else old(gizmoVisible))
    {
      Deselect();
      SetActiveGizmo(activeGizmoType, true);
      selectedInstances := selectedInstances + {id};
    }

    /** The second half of select: the instance's asset decides the category and what the selection points at. */
    method SelectTarget(inst: ModelInstance)
      requires ModelsValid() && LightsValid() && CamerasValid() && MarkersBounded()
      modifies this`selectedObjectType, this`activeCamera, this`selectedLight, this`requestedFrames,
               this`selectedModel, this`selectedModelInstance
      ensures ModelsValid() && CamerasValid()
      ensures selectedObjectType == CategoryOf(inst.asset)
      ensures activeCamera == if CategoryOf(inst.asset) == Camera && inst.id in cameraMarkers
        then FirstIndexOf(cameraMarkers, inst.id) else old(activeCamera)
      ensures selectedLight == if CategoryOf(inst.asset) == Light && inst.id in lightMarkers
        then PointLights(lights)[FirstIndexOf(lightMarkers, inst.id)] else old(selectedLight)
      ensures requestedFrames == old(requestedFrames) + if CategoryOf(inst.asset) == Keyframe && inst.id in keyframeMarkers
        then [FirstIndexOf(keyframeMarkers, inst.id)] else []
      ensures (selectedModel, selectedModelInstance) == if CategoryOf(inst.asset) == Model
        then InstancePosition(models, instances, inst, old((selectedModel, selectedModelInstance)))
        else old((selectedModel, selectedModelInstance))
    {
      if inst.asset == cameraModel {
        SelectCamera(inst.id);
      } else if inst.asset == lightModel {
        SelectLight(inst.id);
      } else if inst.asset == keyframeModel {
        SelectKeyframe(inst.id);
      } else {
        SetActiveModelInstance(inst);
      }
    }

    /** select, for a camera marker: the camera it stands for becomes the active camera. */
    method SelectCamera(id: InstanceId)
      requires CamerasValid() && MarkersBounded()
      modifies this`selectedObjectType, this`activeCamera
      ensures CamerasValid()
      ensures selectedObjectType == Camera
      ensures activeCamera == if id in cameraMarkers then FirstIndexOf(cameraMarkers, id) else old(activeCamera)
    {
      selectedObjectType := Camera;
      var cameraID := FindEditorModelInstanceID(cameraMarkers, id);
      if cameraID != Uint32Max {
        activeCamera := cameraID;
      }
    }

    /** select, for a light marker: the point light it stands for becomes the selected light. */
    method SelectLight(id: InstanceId)
      requires LightsValid() && MarkersBounded()
      modifies this`selectedObjectType, this`selectedLight
      ensures selectedObjectType == Light
      ensures selectedLight == if id in lightMarkers then PointLights(lights)[FirstIndexOf(lightMarkers, id)] else old(selectedLight)
      ensures id in lightMarkers ==> selectedLight < |lights| && lights[selectedLight] == PointLight
    {
      selectedObjectType := Light;
      var instanceID := FindEditorModelInstanceID(lightMarkers, id);
      if instanceID != Uint32Max {
        selectedLight := lightIDEditorToScene[instanceID];
      }
    }

    /** select, for a keyframe marker: its keyframe is handed to the path editor's setActiveFrame. */
    method SelectKeyframe(id: InstanceId)
      requires MarkersBounded()
      modifies this`selectedObjectType, this`requestedFrames
      ensures selectedObjectType == Keyframe
      ensures requestedFrames == old(requestedFrames) + if id in keyframeMarkers then [FirstIndexOf(keyframeMarkers, id)] else []
    {
      selectedObjectType := Keyframe;
      var frameID := FindEditorModelInstanceID(keyframeMarkers, id);
      if frameID != Uint32Max {
        requestedFrames := requestedFrames + [frameID];
      }
    }

    /**
     * select, for an instance of a scene model, with setActiveModelInstance: the
     * instance's position becomes the selected model and instance when the first
     * model with its asset holds it.
     */
    method SetActiveModelInstance(inst: ModelInstance)
      requires ModelsValid()
      modifies this`selectedObjectType, this`selectedModel, this`selectedModelInstance
      ensures ModelsValid()
      ensures selectedObjectType == Model
      ensures (selectedModel, selectedModelInstance) == InstancePosition(models, instances, inst, old((selectedModel, selectedModelInstance)))
    {
      selectedObjectType := Model;
      var position := FindModelInstance(models, instances, inst, (selectedModel, selectedModelInstance));
      selectedModel, selectedModelInstance := position.0, position.1;
    }

    /** What applyGizmoTransform indexes must exist: a model to move, a light in range. */
    ghost predicate GizmoTargetInRange()
      reads this`selectedObjectType, this`models, this`selectedLight, this`lights
    {
      && (selectedObjectType == Model ==> models != [])
      && (selectedObjectType == Light ==> selectedLight < |lights|)
    }

    /** Whether the active gizmo's delta reaches the selected object. */
    ghost predicate DeltaApplies()
      reads this`selectedObjectType, this`models, this`selectedLight, this`lights, this`activeGizmoType
      requires GizmoTargetInRange()
    {
      match selectedObjectType
      case Model => true
      case Camera => true
      case Light => lights[selectedLight] == PointLight
      case Keyframe => activeGizmoType != Scale
    }

    /**
     * applyGizmoTransform: the delta goes to the selected model instance, the active
     * camera, the selected light when it is a point light, or the active keyframe
     * unless the gizmo scales; a rotation of a model instance is recorded in the
     * rotation table (`rotation` is the instance's rotation after the delta). The
     * scene is marked dirty in every case.
     */
    method ApplyGizmoTransform(rotation: Vec3)
      requires ModelsValid() && GizmoTargetInRange()
      modifies this`sceneDirty, this`instanceEulerRotations, this`transformed
      ensures ModelsValid()
      ensures sceneDirty
      ensures transformed == old(transformed) + (if DeltaApplies() then [selectedObjectType] else [])
      ensures selectedObjectType == Model && activeGizmoType == Rotate ==>
        instanceEulerRotations == old(instanceEulerRotations)[selectedModel :=
          old(instanceEulerRotations)[selectedModel][selectedModelInstance := rotation]]
      ensures !(selectedObjectType == Model && activeGizmoType == Rotate) ==>
        instanceEulerRotations == old(instanceEulerRotations)
    {
      var moved := transformed;
      var rotations := instanceEulerRotations;
      match selectedObjectType {
        case Model =>
          moved := moved + [Model];
          if activeGizmoType == Rotate {
            rotations := rotations[selectedModel := rotations[selectedModel][selectedModelInstance := rotation]];
          }
        case Camera =>
          moved := moved + [Camera];
        case Light =>
          if lights[selectedLight] == PointLight {
            moved := moved + [Light];
          }
        case Keyframe =>
          if activeGizmoType != Scale {
            moved := moved + [Keyframe];
          }
      }
      transformed, instanceEulerRotations, sceneDirty := moved, rotations, true;
    }

    /**
     * onMouseEvent, for the selection and drag state. `editorPick` and `scenePick`
     * are what the editor-scene and scene pickers return at the event position,
     * `beginAction` whether the active gizmo accepts the editor pick, `now` the time
     * of the event in seconds and `rotation` the selected instance's rotation after a
     * drag step. The hold timer ticks on button presses and releases only.
     */
    method OnMouseEvent(kind: MouseEventType, now: real, editorPick: Option<ModelInstance>, beginAction: bool,
                        scenePick: Option<ModelInstance>, rotation: Vec3) returns (handled: bool)
      requires SelectionValid() && ModelsValid() && LightsValid() && CamerasValid() && MarkersBounded()
      requires kind == Move && gizmoBeingDragged ==> GizmoTargetInRange()
      modifies this`holdTimerPrevious, this`holdTimerCurrent, this`gizmoBeingDragged, this`sceneDirty,
               this`instanceEulerRotations, this`transformed,
               this`selectedInstances, this`gizmoVisible, this`activeGizmoType, this`selectedObjectType,
               this`activeCamera, this`selectedLight, this`requestedFrames, this`selectedModel,
               this`selectedModelInstance
      ensures SelectionValid() && ModelsValid() && CamerasValid()
      ensures handled
      ensures kind == LeftButtonDown || kind == LeftButtonUp ==>
        holdTimerPrevious == old(holdTimerCurrent) && holdTimerCurrent == now
      ensures kind == Move || kind == OtherMouseEvent ==>
        holdTimerPrevious == old(holdTimerPrevious) && holdTimerCurrent == old(holdTimerCurrent)
      // a press starts a drag only when none is in progress and the gizmo takes the pick
      ensures kind == LeftButtonDown ==>
        gizmoBeingDragged == (old(gizmoBeingDragged) || (editorPick.Some? && beginAction))
      // a move applies the gizmo only while dragging
      ensures kind == Move ==> gizmoBeingDragged == old(gizmoBeingDragged)
      ensures kind == Move && old(gizmoBeingDragged) ==> sceneDirty
      ensures !(kind == Move && old(gizmoBeingDragged)) ==> sceneDirty == old(sceneDirty) && transformed == old(transformed)
      // a release always ends a drag; it is a click when no drag was in progress and it came soon enough
      ensures kind == LeftButtonUp ==> !gizmoBeingDragged
      ensures kind == LeftButtonUp && !old(gizmoBeingDragged) && now - old(holdTimerCurrent) < ClickTime ==>
        selectedInstances == (if editorPick.Some? then {editorPick.value.id}
                              else if scenePick.Some? then {scenePick.value.id} else {})
      ensures !(kind == LeftButtonUp && !old(gizmoBeingDragged) && now - old(holdTimerCurrent) < ClickTime) ==>
        selectedInstances == old(selectedInstances)
      ensures kind == OtherMouseEvent ==> gizmoBeingDragged == old(gizmoBeingDragged)
    {
      match kind {
        case LeftButtonDown =>
          PressLeftButton(now, editorPick, beginAction);
        case Move =>
          if gizmoBeingDragged {
            ApplyGizmoTransform(rotation);
          }
        case LeftButtonUp =>
          ReleaseLeftButton(now, editorPick, scenePick);
        case OtherMouseEvent =>
      }
      return true;
    }

    /**
     * onMouseEvent's LeftButtonDown case, with the hold timer's tick: a drag starts
     * when the active gizmo takes the editor pick.
     */
    method PressLeftButton(now: real, editorPick: Option<ModelInstance>, beginAction: bool)
      modifies this`holdTimerPrevious, this`holdTimerCurrent, this`gizmoBeingDragged
      ensures holdTimerPrevious == old(holdTimerCurrent) && holdTimerCurrent == now
      ensures gizmoBeingDragged == (old(gizmoBeingDragged) || (editorPick.Some? && beginAction))
    {
      holdTimerPrevious, holdTimerCurrent := holdTimerCurrent, now;
      if !gizmoBeingDragged {
        if editorPick.Some? {
          if beginAction {
            gizmoBeingDragged := true;
          }
        }
      }
    }

    /**
     * onMouseEvent's LeftButtonUp case, with the hold timer's tick: a release ends a
     * drag; otherwise, if the button was held for less than ClickTime seconds, it
     * selects the editor pick, or failing that the scene pick, or deselects when
     * neither picker hit anything.
     */
    method ReleaseLeftButton(now: real, editorPick: Option<ModelInstance>, scenePick: Option<ModelInstance>)
      requires SelectionValid() && ModelsValid() && LightsValid() && CamerasValid() && MarkersBounded()
      modifies this`holdTimerPrevious, this`holdTimerCurrent, this`gizmoBeingDragged, this`selectedInstances,
               this`gizmoVisible, this`activeGizmoType, this`selectedObjectType, this`activeCamera,
               this`selectedLight, this`requestedFrames, this`selectedModel, this`selectedModelInstance
      ensures SelectionValid() && ModelsValid() && CamerasValid()
      ensures holdTimerPrevious == old(holdTimerCurrent) && holdTimerCurrent == now
      ensures !gizmoBeingDragged
      ensures !old(gizmoBeingDragged) && now - old(holdTimerCurrent) < ClickTime ==>
        selectedInstances == (if editorPick.Some? then {editorPick.value.id}
                              else if scenePick.Some? then {scenePick.value.id} else {})
      ensures !(!old(gizmoBeingDragged) && now - old(holdTimerCurrent) < ClickTime) ==>
        selectedInstances == old(selectedInstances)
    {
      var click := !gizmoBeingDragged && now - holdTimerCurrent < ClickTime;
      holdTimerPrevious, holdTimerCurrent, gizmoBeingDragged := holdTimerCurrent, now, false;
      if click {
        SelectPick(editorPick, scenePick);
      }
    }

    /** A click's selection: the editor pick, or failing that the scene pick, or nothing. */
    method SelectPick(editorPick: Option<ModelInstance>, scenePick: Option<ModelInstance>)
      requires SelectionValid() && ModelsValid() && LightsValid() && CamerasValid() && MarkersBounded()
      modifies this`selectedInstances, this`gizmoVisible, this`activeGizmoType, this`selectedObjectType,
               this`activeCamera, this`selectedLight, this`requestedFrames, this`selectedModel,
               this`selectedModelInstance
      ensures SelectionValid() && ModelsValid() && CamerasValid()
      ensures selectedInstances == (if editorPick.Some? then {editorPick.value.id}
                                    else if scenePick.Some? then {scenePick.value.id} else {})
    {
      if editorPick.Some? {
        ClickSelect(editorPick.value);
      } else if scenePick.Some? {
        ClickSelect(scenePick.value);
      } else {
        Deselect();
      }
    }

    /** select, seen from the selection alone: afterwards exactly the picked instance is selected. */
    method ClickSelect(inst: ModelInstance)
      requires SelectionValid() && ModelsValid() && LightsValid() && CamerasValid() && MarkersBounded()
      modifies this`selectedInstances, this`gizmoVisible, this`activeGizmoType, this`selectedObjectType,
               this`activeCamera, this`selectedLight, this`requestedFrames, this`selectedModel,
               this`selectedModelInstance
      ensures SelectionValid() && ModelsValid() && CamerasValid()
      ensures selectedInstances == {inst.id}
    {
      ghost var was := selectedInstances;
      Select(inst);
      if inst.id in was {
        SingletonSet(was, inst.id);
      }
    }

    // -------------------------------------------------------------------------
    // Paths
    // -------------------------------------------------------------------------

    /**
     * selectPath: while no path editor is open, a new choice in the path dropdown
     * (whose values are the path indices) becomes the selected path.
     */
    method SelectPath(changed: bool, picked: nat)
      requires PathsValid()
      requires !pathEditorOpen && changed ==> picked < |paths|
      modifies this`selectedPath, this`sceneDirty
      ensures PathsValid()
      ensures !pathEditorOpen && changed ==> selectedPath == picked && sceneDirty
      ensures pathEditorOpen || !changed ==> selectedPath == old(selectedPath) && sceneDirty == old(sceneDirty)
    {
      if !pathEditorOpen {
        if changed {
          selectedPath, sceneDirty := picked, true;
        }
      }
    }

    /**
     * addPath: while no path editor is open, the button appends an empty path named
     * "Path <count>", selects it and opens the path editor on it. `ref` is the new
     * path object.
     */
    method AddPath(ref: PathRef)
      requires PathsValid()
      requires !pathEditorOpen ==> ref !in PathRefs(paths) && |paths| + 1 < NoPath
      modifies this`paths, this`selectedPath, this`pathEditorOpen, this`sceneDirty
      ensures PathsValid()
      ensures !old(pathEditorOpen) ==>
        && paths == old(paths) + [ScenePath(ref, "Path " + DecimalString(|old(paths)|), {})]
        && selectedPath == |old(paths)| && pathEditorOpen && sceneDirty
      ensures old(pathEditorOpen) ==>
        paths == old(paths) && selectedPath == old(selectedPath)
        && pathEditorOpen == old(pathEditorOpen) && sceneDirty == old(sceneDirty)
    {
      if !pathEditorOpen {
        var path := ScenePath(ref, "Path " + DecimalString(|paths|), {});
        AddPathKeepsConsistent(paths, objToPathMap, path);
        paths, selectedPath, pathEditorOpen, sceneDirty := paths + [path], |paths|, true, true;
      }
    }

    /**
     * deletePath: refused while a path editor is open. Otherwise the button erases
     * the map entries of the selected path's attached objects and deletes the path;
     * when the selection was the last path it moves to the new last one, which is
     * (uint32_t)-1, i.e. kNoPath, once no path is left.
     */
    method DeletePath()
      requires PathsValid()
      requires !pathEditorOpen ==> paths != []
      modifies this`paths, this`objToPathMap, this`selectedPath, this`sceneDirty
      ensures PathsValid()
      ensures !pathEditorOpen ==>
        && paths == RemoveAt(old(paths), old(selectedPath))
        && objToPathMap == old(objToPathMap) - old(paths)[old(selectedPath)].attached
        && (old(selectedPath) < |paths| ==> selectedPath == old(selectedPath))
        && (old(selectedPath) == |paths| > 0 ==> selectedPath == |paths| - 1)
        && (paths == [] ==> selectedPath == NoPath)
        && sceneDirty
      ensures pathEditorOpen ==>
        paths == old(paths) && objToPathMap == old(objToPathMap)
        && selectedPath == old(selectedPath) && sceneDirty == old(sceneDirty)
    {
      if pathEditorOpen {
        return;
      }
      var attached := paths[selectedPath].attached;
      var entries := EraseAttached(objToPathMap, attached);
      DeletePathKeepsConsistent(paths, objToPathMap, selectedPath);
      var remaining := RemoveAt(paths, selectedPath);
      var selection := selectedPath;
      if selection == |remaining| {
        selection := Uint32Sub(|remaining|, 1);
      }
      paths, objToPathMap, selectedPath, sceneDirty := remaining, entries, selection, true;
    }

    /**
     * setObjectPath: the object's current path is looked up through the map and
     * then by index; a new choice in the dropdown (the path indices and kNoPath)
     * detaches the object from that path and erases its entry, then attaches it to
     * the chosen path unless the choice is kNoPath.
     */
    method SetObjectPath(obj: ObjectId, changed: bool, newPathID: nat)
      requires PathsValid()
      requires changed ==> newPathID == NoPath || newPathID < |paths|
      modifies this`paths, this`objToPathMap
      ensures PathsValid()
      ensures |paths| == |old(paths)| && forall i :: 0 <= i < |paths| ==> paths[i].ref == old(paths)[i].ref && paths[i].name == old(paths)[i].name
      ensures !changed ==> paths == old(paths) && objToPathMap == old(objToPathMap)
      ensures changed ==> objToPathMap - {obj} == old(objToPathMap) - {obj}
      ensures changed && newPathID == NoPath ==>
        obj !in objToPathMap && forall i :: 0 <= i < |paths| ==> obj !in paths[i].attached
      ensures changed && newPathID != NoPath ==>
        obj in objToPathMap && objToPathMap[obj] == paths[newPathID].ref && obj in paths[newPathID].attached
    {
      var oldPathID := NoPath;
      if obj in objToPathMap {
        oldPathID := FindPathID(paths, objToPathMap[obj]);
      }
      if changed {
        var reattached := Reattach(paths, objToPathMap, obj, oldPathID, newPathID);
        paths, objToPathMap := reattached.0, reattached.1;
      }
    }

    // -------------------------------------------------------------------------
    // Lights
    // -------------------------------------------------------------------------

    /**
     * addPointLight: the light is appended to the scene and a marker for it to the
     * editor scene; it becomes the selected light, the maps are rebuilt and its
     * marker, found through the scene-to-editor map, is selected. `marker` is the
     * new marker instance.
     */
    method AddPointLight(marker: InstanceId)
      requires SelectionValid() && ModelsValid() && LightsValid() && CamerasValid() && MarkersBounded()
      requires |lightMarkers| + 1 < Uint32Max
      modifies this`lights, this`lightMarkers, this`selectedLight, this`lightIDEditorToScene,
               this`lightIDSceneToEditor, this`selectedInstances, this`gizmoVisible, this`activeGizmoType,
               this`selectedObjectType, this`activeCamera, this`requestedFrames, this`selectedModel,
               this`selectedModelInstance, this`sceneDirty
      ensures SelectionValid() && ModelsValid() && LightsValid() && CamerasValid() && MarkersBounded()
      ensures lights == old(lights) + [PointLight] && lightMarkers == old(lightMarkers) + [marker] && sceneDirty
      ensures selectedInstances == {marker} && activeGizmoType == old(activeGizmoType)
      ensures selectedObjectType == if marker in old(selectedInstances) then old(selectedObjectType) else Light
      ensures gizmoVisible == if marker !in old(selectedInstances) && activeGizmoType in gizmoPresent
        then old(gizmoVisible) + {activeGizmoType} else old(gizmoVisible)
      ensures selectedLight == if marker in old(selectedInstances) then |old(lights)|
        else PointLights(lights)[FirstIndexOf(lightMarkers, marker)]
      ensures marker !in old(lightMarkers) ==> selectedLight == |old(lights)|
      ensures activeCamera == old(activeCamera) && requestedFrames == old(requestedFrames)
      ensures selectedModel == old(selectedModel) && selectedModelInstance == old(selectedModelInstance)
    {
      AppendPointLight(marker);
      SelectLightMarker(marker);
      if marker !in old(lightMarkers) {
        FirstIndexOfAppended(old(lightMarkers), marker);
      }
    }

    /**
     * select, for a light marker: it becomes the whole selection and, unless it was
     * already selected, the active gizmo is shown, the category becomes Light and the
     * point light the marker stands for becomes the selected light. The other
     * categories' targets stay as they were.
     */
    method SelectLightMarker(marker: InstanceId)
      requires SelectionValid() && ModelsValid() && LightsValid() && CamerasValid() && MarkersBounded()
      requires marker in lightMarkers
      modifies this`selectedInstances, this`gizmoVisible, this`activeGizmoType, this`selectedObjectType,
               this`activeCamera, this`selectedLight, this`requestedFrames, this`selectedModel,
               this`selectedModelInstance
      ensures SelectionValid() && ModelsValid() && LightsValid() && CamerasValid() && MarkersBounded()
      ensures selectedInstances == {marker} && activeGizmoType == old(activeGizmoType)
      ensures selectedObjectType == if marker in old(selectedInstances) then old(selectedObjectType) else Light
      ensures gizmoVisible == if marker !in old(selectedInstances) && activeGizmoType in gizmoPresent
        then old(gizmoVisible) + {activeGizmoType} else old(gizmoVisible)
      ensures selectedLight == if marker in old(selectedInstances) then old(selectedLight)
        else PointLights(lights)[FirstIndexOf(lightMarkers, marker)]
      ensures activeCamera == old(activeCamera) && requestedFrames == old(requestedFrames)
      ensures selectedModel == old(selectedModel) && selectedModelInstance == old(selectedModelInstance)
      ensures unchanged(this`lights, this`lightMarkers, this`sceneDirty)
    {
      ghost var was := selectedInstances;
      Select(ModelInstance(marker, lightModel));
      if marker in was {
        SingletonSet(was, marker);
      }
    }

    /**
     * The first half of addPointLight: the scene gains a point light and the editor
     * a marker for it, the light is selected, the maps are rebuilt and the scene is
     * marked dirty. Its marker is the last one.
     */
    method AppendPointLight(marker: InstanceId)
      requires LightsValid() && MarkersBounded() && |lightMarkers| + 1 < Uint32Max
      modifies this`lights, this`lightMarkers, this`selectedLight, this`lightIDEditorToScene, this`lightIDSceneToEditor,
               this`sceneDirty
      ensures LightsValid() && MarkersBounded() && sceneDirty
      ensures lights == old(lights) + [PointLight] && lightMarkers == old(lightMarkers) + [marker]
      ensures selectedLight == |old(lights)|
      ensures |old(lights)| in lightIDSceneToEditor && lightIDSceneToEditor[|old(lights)|] == |lightMarkers| - 1
      ensures PointLights(lights)[|lightMarkers| - 1] == |old(lights)|
    {
      PointLightAppends(lights);
      lights, lightMarkers, selectedLight, sceneDirty := lights + [PointLight], lightMarkers + [marker], |lights|, true;
      RebuildLightIDMap();
      assert |lightMarkers| - 1 in lightIDEditorToScene;
    }

    /** addDirectionalLight: the light is appended to the scene; point lights, markers and maps stay as they are. */
    method AddDirectionalLight()
      requires LightsValid()
      modifies this`lights, this`sceneDirty
      ensures LightsValid()
      ensures lights == old(lights) + [OtherLight] && sceneDirty
    {
      OtherLightKeepsPointLights(lights);
      lights, sceneDirty := lights + [OtherLight], true;
    }

    /**
     * The Remove button of light i in renderLightElements, once the user confirms,
     * corrected in two places: only a point light's marker is removed, and a selected
     * light is followed. The light leaves the scene, its marker leaves the editor
     * scene and the maps are rebuilt. While a light is selected, deleting it clears
     * the selection; deleting another light keeps the selected one under its new
     * index. The scene is not marked dirty.
     */
    method DeleteLight(confirmed: bool, i: nat)
      requires SelectionValid() && LightsValid() && MarkersBounded() && i < |lights|
      modifies this`lights, this`lightMarkers, this`lightIDEditorToScene, this`lightIDSceneToEditor,
               this`selectedLight, this`selectedInstances, this`gizmoVisible, this`activeGizmoType
      ensures SelectionValid() && LightsValid() && MarkersBounded()
      ensures confirmed ==>
        lights == RemoveAt(old(lights), i) && lightMarkers == DeleteLightMarkers(old(lights), old(lightMarkers), i)
      ensures !confirmed ==> lights == old(lights) && lightMarkers == old(lightMarkers)
      ensures activeGizmoType == old(activeGizmoType)
      ensures confirmed && selectedObjectType == Light && old(selectedLight) == i ==>
        && selectedInstances == {} && selectedLight == old(selectedLight)
        && gizmoVisible == (if activeGizmoType in gizmoPresent then old(gizmoVisible) - {activeGizmoType} else old(gizmoVisible))
      ensures confirmed && selectedObjectType == Light && old(selectedLight) != i ==>
        && SelectedLightAfterDelete(old(selectedLight), i) == Some(selectedLight)
        && (old(selectedLight) < old(|lights|) ==> selectedLight < |lights|)
        && selectedInstances == old(selectedInstances) && gizmoVisible == old(gizmoVisible)
      ensures !(confirmed && selectedObjectType == Light) ==>
        selectedLight == old(selectedLight) && selectedInstances == old(selectedInstances) && gizmoVisible == old(gizmoVisible)
    {
      if confirmed {
        RemoveLight(i);
        if selectedObjectType == Light {
          match SelectedLightAfterDelete(selectedLight, i) {
            case None => Deselect();
            case Some(s) => selectedLight := s;
          }
        }
      }
    }

    /** The first half of the Remove button: the light and its marker go, and the maps are rebuilt. */
    method RemoveLight(i: nat)
      requires LightsValid() && MarkersBounded() && i < |lights|
      modifies this`lights, this`lightMarkers, this`lightIDEditorToScene, this`lightIDSceneToEditor
      ensures LightsValid() && MarkersBounded()
      ensures lights == RemoveAt(old(lights), i) && lightMarkers == DeleteLightMarkers(old(lights), old(lightMarkers), i)
    {
      var markers := DeleteLightMarkers(lights, lightMarkers, i);
      lights, lightMarkers := RemoveAt(lights, i), markers;
      RebuildLightIDMap();
    }

    // -------------------------------------------------------------------------
    // Cameras
    // -------------------------------------------------------------------------

    /**
     * addCamera: the new camera is appended and made active, its marker is appended
     * to the editor scene and selected. `marker` is the new marker instance.
     */
    method AddCamera(marker: InstanceId)
      requires SelectionValid() && ModelsValid() && LightsValid() && CamerasValid() && MarkersBounded()
      requires |cameraMarkers| + 1 < Uint32Max
      modifies this`cameraCount, this`activeCamera, this`cameraMarkers, this`selectedInstances,
               this`gizmoVisible, this`activeGizmoType, this`selectedObjectType, this`selectedLight,
               this`requestedFrames, this`selectedModel, this`selectedModelInstance, this`sceneDirty
      ensures SelectionValid() && ModelsValid() && CamerasValid() && MarkersBounded()
      ensures cameraCount == old(cameraCount) + 1 && cameraMarkers == old(cameraMarkers) + [marker] && sceneDirty
      ensures selectedInstances == {marker} && activeGizmoType == old(activeGizmoType)
      ensures selectedObjectType == if marker in old(selectedInstances) then old(selectedObjectType) else Camera
      ensures gizmoVisible == if marker !in old(selectedInstances) && activeGizmoType in gizmoPresent
        then old(gizmoVisible) + {activeGizmoType} else old(gizmoVisible)
      ensures activeCamera == if marker in old(selectedInstances) then old(cameraCount)
        else FirstIndexOf(cameraMarkers, marker)
      ensures marker !in old(cameraMarkers) ==> activeCamera == old(cameraCount)
      ensures selectedLight == old(selectedLight) && requestedFrames == old(requestedFrames)
      ensures selectedModel == old(selectedModel) && selectedModelInstance == old(selectedModelInstance)
    {
      AppendCamera(marker);
      SelectCameraMarker(marker);
      if marker !in old(cameraMarkers) {
        FirstIndexOfAppended(old(cameraMarkers), marker);
      }
    }

    /**
     * select, for a camera marker: it becomes the whole selection and, unless it was
     * already selected, the active gizmo is shown, the category becomes Camera and the
     * camera the marker stands for becomes the active camera. The other categories'
     * targets stay as they were.
     */
    method SelectCameraMarker(marker: InstanceId)
      requires SelectionValid() && ModelsValid() && LightsValid() && CamerasValid() && MarkersBounded()
      requires marker in cameraMarkers
      modifies this`selectedInstances, this`gizmoVisible, this`activeGizmoType, this`selectedObjectType,
               this`activeCamera, this`selectedLight, this`requestedFrames, this`selectedModel,
               this`selectedModelInstance
      ensures SelectionValid() && ModelsValid() && LightsValid() && CamerasValid() && MarkersBounded()
      ensures selectedInstances == {marker} && activeGizmoType == old(activeGizmoType)
      ensures selectedObjectType == if marker in old(selectedInstances) then old(selectedObjectType) else Camera
      ensures gizmoVisible == if marker !in old(selectedInstances) && activeGizmoType in gizmoPresent
        then old(gizmoVisible) + {activeGizmoType} else old(gizmoVisible)
      ensures activeCamera == if marker in old(selectedInstances) then old(activeCamera)
        else FirstIndexOf(cameraMarkers, marker)
      ensures selectedLight == old(selectedLight) && requestedFrames == old(requestedFrames)
      ensures selectedModel == old(selectedModel) && selectedModelInstance == old(selectedModelInstance)
      ensures unchanged(this`cameraCount, this`cameraMarkers, this`sceneDirty)
    {
      ghost var was := selectedInstances;
      Select(ModelInstance(marker, cameraModel));
      if marker in was {
        SingletonSet(was, marker);
      }
    }

    /** The first half of addCamera: the camera is appended and made active, and its marker appended. */
    method AppendCamera(marker: InstanceId)
      requires CamerasValid() && MarkersBounded() && |cameraMarkers| + 1 < Uint32Max
      modifies this`cameraCount, this`activeCamera, this`cameraMarkers, this`sceneDirty
      ensures CamerasValid() && MarkersBounded()
      ensures cameraCount == old(cameraCount) + 1 && activeCamera == old(cameraCount)
      ensures cameraMarkers == old(cameraMarkers) + [marker] && sceneDirty
    {
      cameraCount, activeCamera, cameraMarkers, sceneDirty := cameraCount + 1, cameraCount, cameraMarkers + [marker], true;
    }

    /**
     * deleteCamera: the last camera is never deleted. Otherwise the scene deletes its
     * active camera, after which `activeAfter` is the scene's active camera index;
     * the marker at that index is deleted and the marker then at that index selected.
     */
    method DeleteCamera(activeAfter: nat)
      requires SelectionValid() && ModelsValid() && LightsValid() && CamerasValid() && MarkersBounded()
      requires cameraCount > 0 && (cameraCount > 1 ==> activeAfter < cameraCount - 1)
      modifies this`cameraCount, this`activeCamera, this`cameraMarkers, this`selectedInstances,
               this`gizmoVisible, this`activeGizmoType, this`selectedObjectType, this`selectedLight,
               this`requestedFrames, this`selectedModel, this`selectedModelInstance, this`sceneDirty
      ensures SelectionValid() && ModelsValid() && CamerasValid() && MarkersBounded()
      ensures cameraCount >= 1
      ensures old(cameraCount) > 1 ==>
        && cameraCount == old(cameraCount) - 1 && cameraMarkers == RemoveAt(old(cameraMarkers), activeAfter)
        && selectedInstances == {cameraMarkers[activeAfter]} && sceneDirty
      ensures old(cameraCount) > 1 ==> var m := cameraMarkers[activeAfter];
        && selectedObjectType == (if m in old(selectedInstances) then old(selectedObjectType) else Camera)
        && activeCamera == (if m in old(selectedInstances) then activeAfter else FirstIndexOf(cameraMarkers, m))
        && gizmoVisible == (if m !in old(selectedInstances) && activeGizmoType in gizmoPresent
                            then old(gizmoVisible) + {activeGizmoType} else old(gizmoVisible))
      ensures old(cameraCount) == 1 ==>
        cameraCount == old(cameraCount) && cameraMarkers == old(cameraMarkers) && sceneDirty == old(sceneDirty)
      ensures old(cameraCount) == 1 ==> unchanged(this)
      ensures activeGizmoType == old(activeGizmoType) && selectedLight == old(selectedLight)
      ensures requestedFrames == old(requestedFrames)
      ensures selectedModel == old(selectedModel) && selectedModelInstance == old(selectedModelInstance)
    {
      if cameraCount == 1 {
        return;
      }
      RemoveCamera(activeAfter);
      SelectCameraMarker(cameraMarkers[activeAfter]);
    }

    /** The first half of deleteCamera: the active camera and its marker go, and `activeAfter` becomes active. */
    method RemoveCamera(activeAfter: nat)
      requires CamerasValid() && MarkersBounded() && cameraCount > 1 && activeAfter < cameraCount - 1
      modifies this`cameraCount, this`activeCamera, this`cameraMarkers, this`sceneDirty
      ensures CamerasValid() && MarkersBounded()
      ensures cameraCount == old(cameraCount) - 1 && activeCamera == activeAfter
      ensures cameraMarkers == RemoveAt(old(cameraMarkers), activeAfter) && sceneDirty
    {
      cameraCount, activeCamera, cameraMarkers, sceneDirty := cameraCount - 1, activeAfter, RemoveAt(cameraMarkers, activeAfter), true;
    }

    // -------------------------------------------------------------------------
    // Models and instances
    // -------------------------------------------------------------------------

    /**
     * addModel: the button opens a file dialog; a chosen file that loads becomes a
     * new model named after the file, with one instance ("Instance 0") and its
     * rotation, and is selected. A file that fails to load returns before the scene
     * is marked dirty; a cancelled dialog still marks it dirty.
     */
    method AddModel(file: Option<string>, loaded: bool, asset: AssetId, id: InstanceId, rotation: Vec3)
      requires ModelsValid()
      modifies this`models, this`instances, this`instanceEulerRotations, this`selectedModel,
               this`selectedModelInstance, this`sceneDirty
      ensures ModelsValid()
      ensures file.Some? && loaded ==>
        Tables() == AppendModel(old(Tables()), SceneModel(asset, ModelName(file.value)), id, rotation)
      ensures !(file.Some? && loaded) ==> Tables() == old(Tables())
      ensures sceneDirty == (old(sceneDirty) || file.None? || loaded)
    {
      if file.Some? {
        if !loaded {
          return;
        }
        var t := AppendModel(Tables(), SceneModel(asset, ModelName(file.value)), id, rotation);
        models, instances, instanceEulerRotations, selectedModel, selectedModelInstance, sceneDirty :=
          t.models, t.instances, t.rotations, t.selectedModel, t.selectedInstance, true;
      } else {
        sceneDirty := true;
      }
    }

    /** deleteModel(): the selected model and its rotations go, the selection resets and is cleared. */
    method DeleteModel()
      requires SelectionValid() && ModelsValid() && models != []
      modifies this`models, this`instances, this`instanceEulerRotations, this`selectedModel,
               this`selectedModelInstance, this`sceneDirty, this`gizmoVisible, this`activeGizmoType,
               this`selectedInstances
      ensures SelectionValid() && ModelsValid()
      ensures Tables() == DeleteSelectedModel(old(Tables()))
      ensures sceneDirty && selectedInstances == {} && activeGizmoType == old(activeGizmoType)
      ensures gizmoVisible == if activeGizmoType in gizmoPresent then old(gizmoVisible) - {activeGizmoType} else old(gizmoVisible)
    {
      var t := DeleteSelectedModel(Tables());
      models, instances, instanceEulerRotations, selectedModel, selectedModelInstance, sceneDirty :=
        t.models, t.instances, t.rotations, t.selectedModel, t.selectedInstance, true;
      Deselect();
    }

    /** deleteModel(Gui): the Remove Model button, shown only while the scene has a model. */
    method RemoveModel()
      requires SelectionValid() && ModelsValid()
      modifies this`models, this`instances, this`instanceEulerRotations, this`selectedModel,
               this`selectedModelInstance, this`sceneDirty, this`gizmoVisible, this`activeGizmoType,
               this`selectedInstances
      ensures SelectionValid() && ModelsValid()
      ensures old(models) != [] ==>
        && Tables() == DeleteSelectedModel(old(Tables())) && sceneDirty && selectedInstances == {}
        && activeGizmoType == old(activeGizmoType)
        && gizmoVisible == (if activeGizmoType in gizmoPresent then old(gizmoVisible) - {activeGizmoType} else old(gizmoVisible))
      ensures old(models) == [] ==> unchanged(this)
    {
      if models != [] {
        DeleteModel();
      }
    }

    /**
     * addModelInstance: a copy of the selected instance is appended to the selected
     * model, its rotation to the table, and it is selected. Returns the name it is
     * given (the corrected "Instance <index>"); `id` is the new instance.
     */
    method AddModelInstance(id: InstanceId, rotation: Vec3) returns (name: string)
      requires SelectionValid() && ModelsValid() && LightsValid() && CamerasValid() && MarkersBounded()
      requires models != []
      modifies this`instances, this`instanceEulerRotations, this`selectedModelInstance, this`selectedInstances,
               this`gizmoVisible, this`activeGizmoType, this`selectedObjectType, this`activeCamera,
               this`selectedLight, this`requestedFrames, this`selectedModel, this`sceneDirty
      ensures SelectionValid() && ModelsValid() && CamerasValid()
      ensures var added := AddInstance(old(Tables()), id, rotation);
        && instances == added.instances && instanceEulerRotations == added.rotations
        && name == InstanceName(added.selectedInstance)
      ensures selectedInstances == {id} && sceneDirty
      ensures var asset := old(models[selectedModel].asset);
        var count := |old(instances)[old(selectedModel)]|;
        (selectedModel, selectedModelInstance) ==
          if id !in old(selectedInstances) && CategoryOf(asset) == Model
          then InstancePosition(models, instances, ModelInstance(id, asset), (old(selectedModel), count))
          else (old(selectedModel), count)
      ensures selectedObjectType ==
        if id in old(selectedInstances) then old(selectedObjectType) else CategoryOf(old(models[selectedModel].asset))
      ensures activeGizmoType == old(activeGizmoType)
      ensures gizmoVisible == if id !in old(selectedInstances) && activeGizmoType in gizmoPresent
        then old(gizmoVisible) + {activeGizmoType} else old(gizmoVisible)
      ensures var category := if id in old(selectedInstances) then Model else CategoryOf(old(models[selectedModel].asset));
        && activeCamera == (if category == Camera && id in cameraMarkers then FirstIndexOf(cameraMarkers, id) else old(activeCamera))
        && selectedLight == (if category == Light && id in lightMarkers
                             then PointLights(lights)[FirstIndexOf(lightMarkers, id)] else old(selectedLight))
        && requestedFrames == old(requestedFrames) + (if category == Keyframe && id in keyframeMarkers
                                                      then [FirstIndexOf(keyframeMarkers, id)] else [])
    {
      var t := AddInstance(Tables(), id, rotation);
      name := InstanceName(t.selectedInstance);
      instances, instanceEulerRotations, selectedModelInstance, sceneDirty := t.instances, t.rotations, t.selectedInstance, true;
      ghost var was := selectedInstances;
      Select(ModelInstance(id, models[selectedModel].asset));
      if id in was {
        SingletonSet(was, id);
      }
    }

    /**
     * deleteModelInstance, corrected: removing a model's only instance asks first and,
     * confirmed, deletes the model; declined, nothing changes. Otherwise the selected
     * instance and its rotation go, the selection is cleared and the instance index
     * resets to 0.
     */
    method DeleteModelInstance(confirmed: bool)
      requires SelectionValid() && ModelsValid()
      requires models != []
      modifies this`models, this`instances, this`instanceEulerRotations, this`selectedModel,
               this`selectedModelInstance, this`sceneDirty, this`gizmoVisible, this`activeGizmoType,
               this`selectedInstances
      ensures SelectionValid() && ModelsValid()
      ensures Tables() == DeleteInstance(old(Tables()), confirmed)
      ensures |old(instances)[old(selectedModel)]| > 1 || confirmed ==>
        && sceneDirty && selectedInstances == {} && activeGizmoType == old(activeGizmoType)
        && gizmoVisible == (if activeGizmoType in gizmoPresent then old(gizmoVisible) - {activeGizmoType} else old(gizmoVisible))
      ensures |old(instances)[old(selectedModel)]| == 1 && !confirmed ==>
        && sceneDirty == old(sceneDirty) && selectedInstances == old(selectedInstances)
        && activeGizmoType == old(activeGizmoType) && gizmoVisible == old(gizmoVisible)
    {
      if |instances[selectedModel]| == 1 {
        if confirmed {
          DeleteModel();
        }
        return;
      }
      var t := RemoveSelectedInstance(Tables());
      instances, instanceEulerRotations := t.instances, t.rotations;
      Deselect();
      selectedModelInstance, sceneDirty := 0, true;
    }
  }
}
