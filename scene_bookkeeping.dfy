/**
 * The value-level bookkeeping of the scene editor: the scene the editor works on
 * (an external container, represented by the parts the editor reads and changes),
 * the light-ID maps, the model-name extraction, the path dropdown list, the model
 * instance tables with their rotation table, and the light-marker tables.
 */
module SceneBookkeeping {
  import opened Basics

  /** Identities standing for the source's shared pointers. */
  type InstanceId = nat   // a Scene::ModelInstance
  type AssetId = nat      // a Model (what ModelInstance::getObject() returns)
  type ObjectId = nat     // an IMovableObject that can be attached to a path
  type PathRef = nat      // an ObjectPath

  /** A model instance: its identity and the model asset it instantiates. */
  datatype ModelInstance = ModelInstance(id: InstanceId, asset: AssetId)

  datatype LightKind = PointLight | OtherLight

  /** A scene path: its identity, its name and the objects attached to it. */
  datatype ScenePath = ScenePath(ref: PathRef, name: string, attached: set<ObjectId>)

  /** A scene model: the asset and the name the editor gives it. */
  datatype SceneModel = SceneModel(asset: AssetId, name: string)

  /** Scene::kNoPath, taken to be (uint32_t)-1 (Scene.h is not part of this model). */
  const NoPath: nat := Uint32Max

  // ---------------------------------------------------------------------------
  // Sequence helpers
  // ---------------------------------------------------------------------------

  /** The first index holding x, or |s| when x does not occur. */
  function FirstIndexOf<T(==)>(s: seq<T>, x: T): (i: nat)
    ensures i <= |s|
    ensures i < |s| ==> s[i] == x
    ensures forall j :: 0 <= j < i ==> s[j] != x
    ensures i == |s| <==> x !in s
  {
    if s == [] then 0
    else if s[0] == x then 0
    else 1 + FirstIndexOf(s[1..], x)
  }

  /** An element appended to a sequence that lacks it is first found at the end. */
  lemma FirstIndexOfAppended<T>(s: seq<T>, x: T)
    requires x !in s
    ensures FirstIndexOf(s + [x], x) == |s|
  {
    assert s + [x] == (s + [x])[..|s|] + [x];
  }

  // ---------------------------------------------------------------------------
  // Point-light ID maps (rebuildLightIDMap)
  // ---------------------------------------------------------------------------

  ghost predicate StrictlyIncreasing(p: seq<nat>)
  {
    forall e, e' :: 0 <= e < e' < |p| ==> p[e] < p[e']
  }

  /**
   * The scene indices of the point lights among the first n lights, in scene order:
   * the editor ID of a point light is its position in this sequence.
   */
  function PointLightsBefore(lights: seq<LightKind>, n: nat): (p: seq<nat>)
    requires n <= |lights|
    ensures |p| <= n
    ensures forall e :: 0 <= e < |p| ==> p[e] < n && lights[p[e]] == PointLight
    decreases n
  {
    if n == 0 then []
    else PointLightsBefore(lights, n - 1) + (if lights[n - 1] == PointLight then [n - 1] else [])
  }

  /** The point lights are listed in increasing scene order. */
  lemma {:induction false} PointLightsBeforeIncreasing(lights: seq<LightKind>, n: nat)
    requires n <= |lights|
    ensures StrictlyIncreasing(PointLightsBefore(lights, n))
    decreases n
  {
    if n > 0 {
      PointLightsBeforeIncreasing(lights, n - 1);
    }
  }

  /** Every point light among the first n lights is in the sequence. */
  lemma {:induction false} PointLightsBeforeComplete(lights: seq<LightKind>, n: nat)
    requires n <= |lights|
    ensures forall s :: 0 <= s < n && lights[s] == PointLight ==> s in PointLightsBefore(lights, n)
    decreases n
  {
    if n > 0 {
      PointLightsBeforeComplete(lights, n - 1);
      var p := PointLightsBefore(lights, n - 1);
      assert forall s :: s in p ==> s in PointLightsBefore(lights, n);
    }
  }

  function PointLights(lights: seq<LightKind>): (p: seq<nat>)
    ensures |p| <= |lights|
    ensures forall e :: 0 <= e < |p| ==> p[e] < |lights| && lights[p[e]] == PointLight
  {
    PointLightsBefore(lights, |lights|)
  }

  /** mLightIDEditorToScene as built from the point-light sequence, one pair per point light. */
  function EditorToScene(p: seq<nat>): (m: map<nat, nat>)
    ensures forall e :: e in m <==> 0 <= e < |p|
    ensures forall e :: 0 <= e < |p| ==> m[e] == p[e]
  {
    if p == [] then map[] else EditorToScene(p[..|p| - 1])[|p| - 1 := p[|p| - 1]]
  }

  /** mLightIDSceneToEditor as built from the point-light sequence, one pair per point light. */
  function SceneToEditor(p: seq<nat>): (m: map<nat, nat>)
    ensures forall e :: 0 <= e < |p| ==> p[e] in m
    ensures forall s :: s in m ==> m[s] < |p| && p[m[s]] == s
  {
    if p == [] then map[]
    else
      var q := p[..|p| - 1];
      assert forall e :: 0 <= e < |q| ==> q[e] == p[e];
      SceneToEditor(q)[p[|p| - 1] := |p| - 1]
  }

  /** For a strictly increasing sequence, SceneToEditor inverts it. */
  lemma SceneToEditorInverts(p: seq<nat>)
    requires StrictlyIncreasing(p)
    ensures forall e :: 0 <= e < |p| ==> SceneToEditor(p)[p[e]] == e
  {
    var m := SceneToEditor(p);
    forall e | 0 <= e < |p|
      ensures m[p[e]] == e
    {
      var e' := m[p[e]];
      assert p[e'] == p[e];
    }
  }

  /**
   * What rebuildLightIDMap produces: editor IDs are exactly 0..k-1 for the k point
   * lights, assigned in increasing scene order; the two maps are inverse to each
   * other; and only point lights have an entry.
   */
  lemma LightMapsAreInverse(lights: seq<LightKind>)
    ensures var p := PointLights(lights);
      var toScene := EditorToScene(p);
      var toEditor := SceneToEditor(p);
      && (forall e :: e in toScene <==> 0 <= e < |p|)
      && (forall e, e' :: 0 <= e < e' < |p| ==> toScene[e] < toScene[e'])
      && (forall e :: 0 <= e < |p| ==> toScene[e] in toEditor && toEditor[toScene[e]] == e)
      && (forall s :: s in toEditor <==> 0 <= s < |lights| && lights[s] == PointLight)
      && (forall s :: s in toEditor ==> toEditor[s] in toScene && toScene[toEditor[s]] == s)
  {
    var p := PointLights(lights);
    PointLightsBeforeIncreasing(lights, |lights|);
    SceneToEditorInverts(p);
    PointLightsBeforeComplete(lights, |lights|);
  }

  /**
   * toScene and toEditor are the light-ID maps of `lights`, stated entry by entry:
   * editor IDs 0..k-1 name the k point lights in scene order, and the two maps undo
   * each other.
   */
  ghost predicate LightIDMaps(lights: seq<LightKind>, toScene: map<nat, nat>, toEditor: map<nat, nat>)
  {
    var p := PointLights(lights);
    && (forall e :: e in toScene <==> 0 <= e < |p|)
    && (forall e :: e in toScene ==> toScene[e] == p[e])
    && (forall e :: e in toScene ==> toScene[e] in toEditor && toEditor[toScene[e]] == e)
    && (forall s :: s in toEditor ==> toEditor[s] in toScene && toScene[toEditor[s]] == s)
  }

  /** The maps rebuildLightIDMap builds are the light-ID maps. */
  lemma RebuiltMapsAreLightIDMaps(lights: seq<LightKind>, toScene: map<nat, nat>, toEditor: map<nat, nat>)
    requires toScene == EditorToScene(PointLights(lights)) && toEditor == SceneToEditor(PointLights(lights))
    ensures LightIDMaps(lights, toScene, toEditor)
  {
    LightMapsAreInverse(lights);
  }

  /**
   * The loop of rebuildLightIDMap: both maps start empty; each point light, in scene
   * order, gets the next editor ID.
   */
  method BuildLightIDMaps(lights: seq<LightKind>) returns (editorToScene: map<nat, nat>, sceneToEditor: map<nat, nat>)
    ensures editorToScene == EditorToScene(PointLights(lights))
    ensures sceneToEditor == SceneToEditor(PointLights(lights))
  {
    editorToScene := map[];
    sceneToEditor := map[];
    var pointLightID: nat := 0;
    var sceneLightID: nat := 0;
    ghost var p: seq<nat> := [];
    RebuildStart(lights);
    while sceneLightID < |lights|
      invariant sceneLightID <= |lights|
      invariant p == PointLightsBefore(lights, sceneLightID)
      invariant pointLightID == |p|
      invariant editorToScene == EditorToScene(p) && sceneToEditor == SceneToEditor(p)
    {
      if lights[sceneLightID] == PointLight {
        EditorToSceneExtend(p, sceneLightID);
        SceneToEditorExtend(p, sceneLightID);
        editorToScene := editorToScene[pointLightID := sceneLightID];
        sceneToEditor := sceneToEditor[sceneLightID := pointLightID];
        pointLightID := pointLightID + 1;
        p := p + [sceneLightID];
      }
      sceneLightID := sceneLightID + 1;
    }
  }

  lemma {:induction false} OtherLightKeepsPrefix(lights: seq<LightKind>, n: nat)
    requires n <= |lights|
    ensures PointLightsBefore(lights + [OtherLight], n) == PointLightsBefore(lights, n)
    decreases n
  {
    if n > 0 {
      OtherLightKeepsPrefix(lights, n - 1);
    }
  }

  /** Appending a light that is not a point light leaves the point-light sequence, hence both maps, as they were. */
  lemma OtherLightKeepsPointLights(lights: seq<LightKind>)
    ensures PointLights(lights + [OtherLight]) == PointLights(lights)
  {
    OtherLightKeepsPrefix(lights, |lights|);
  }

  lemma {:induction false} PointLightKeepsPrefix(lights: seq<LightKind>, n: nat)
    requires n <= |lights|
    ensures PointLightsBefore(lights + [PointLight], n) == PointLightsBefore(lights, n)
    decreases n
  {
    if n > 0 {
      PointLightKeepsPrefix(lights, n - 1);
    }
  }

  /** Appending a point light appends its index: it gets the next editor ID. */
  lemma PointLightAppends(lights: seq<LightKind>)
    ensures PointLights(lights + [PointLight]) == PointLights(lights) + [|lights|]
  {
    PointLightKeepsPrefix(lights, |lights|);
  }

  /** With no light visited yet, both maps are empty. */
  lemma RebuildStart(lights: seq<LightKind>)
    ensures PointLightsBefore(lights, 0) == []
    ensures EditorToScene([]) == map[] && SceneToEditor([]) == map[]
  {
  }

  /** A shorter prefix of the lights lists a prefix of the point lights. */
  lemma {:induction false} PointLightsBeforePrefix(lights: seq<LightKind>, m: nat, n: nat)
    requires m <= n <= |lights|
    ensures |PointLightsBefore(lights, m)| <= |PointLightsBefore(lights, n)|
    ensures forall e :: 0 <= e < |PointLightsBefore(lights, m)| ==>
      PointLightsBefore(lights, n)[e] == PointLightsBefore(lights, m)[e]
    decreases n
  {
    if n > m {
      PointLightsBeforePrefix(lights, m, n - 1);
    }
  }

  /** The scene index a light had before light i was removed, given its index after. */
  function IndexBeforeRemoval(s: nat, i: nat): nat
  {
    if s < i then s else s + 1
  }

  /**
   * The editor ID a point light had before light i was removed, given its editor ID
   * after: the IDs from light i's own onwards move down by one when light i was a
   * point light.
   */
  function EditorIDBeforeRemoval(lights: seq<LightKind>, i: nat, e: nat): nat
    requires i < |lights|
  {
    if lights[i] == PointLight && e >= |PointLightsBefore(lights, i)| then e + 1 else e
  }

  /** Removing light i leaves the point lights before it as they were. */
  lemma {:induction false} PointLightsBeforeRemovalUnchanged(lights: seq<LightKind>, i: nat, n: nat)
    requires i < |lights| && n <= i
    ensures PointLightsBefore(RemoveAt(lights, i), n) == PointLightsBefore(lights, n)
    decreases n
  {
    if n > 0 {
      PointLightsBeforeRemovalUnchanged(lights, i, n - 1);
    }
  }

  /**
   * Removing light i: each point light among the first n remaining lights is the
   * point light it was before, under its former scene index and editor ID.
   */
  lemma {:induction false} PointLightsBeforeRemoval(lights: seq<LightKind>, i: nat, n: nat)
    requires i < |lights| && i <= n <= |lights| - 1
    ensures var after, before := PointLightsBefore(RemoveAt(lights, i), n), PointLightsBefore(lights, n + 1);
      && |PointLightsBefore(lights, i)| <= |after|
      && |after| + (if lights[i] == PointLight then 1 else 0) == |before|
      && forall e :: 0 <= e < |after| ==>
           IndexBeforeRemoval(after[e], i) == before[EditorIDBeforeRemoval(lights, i, e)]
    decreases n
  {
    if n == i {
      PointLightsBeforeRemovalUnchanged(lights, i, i);
    } else {
      PointLightsBeforeRemoval(lights, i, n - 1);
      assert RemoveAt(lights, i)[n - 1] == lights[n];
    }
  }

  /**
   * Removing light i: every point light that remains is listed, under its new editor
   * ID, with the scene index and editor ID it had before.
   */
  lemma PointLightsAfterRemoval(lights: seq<LightKind>, i: nat)
    requires i < |lights|
    ensures var after, before := PointLights(RemoveAt(lights, i)), PointLights(lights);
      && |after| + (if lights[i] == PointLight then 1 else 0) == |before|
      && forall e :: 0 <= e < |after| ==>
           IndexBeforeRemoval(after[e], i) == before[EditorIDBeforeRemoval(lights, i, e)]
  {
    PointLightsBeforeRemoval(lights, i, |lights| - 1);
  }

  /** A point light's editor ID is the number of point lights before it. */
  lemma PointLightEditorID(lights: seq<LightKind>, i: nat)
    requires i < |lights| && lights[i] == PointLight
    ensures i in SceneToEditor(PointLights(lights))
    ensures SceneToEditor(PointLights(lights))[i] == |PointLightsBefore(lights, i)|
    ensures |PointLightsBefore(lights, i)| < |PointLights(lights)|
    ensures PointLights(lights)[|PointLightsBefore(lights, i)|] == i
  {
    var p := PointLights(lights);
    PointLightsBeforePrefix(lights, i + 1, |lights|);
    assert p[|PointLightsBefore(lights, i)|] == i;
    PointLightsBeforeIncreasing(lights, |lights|);
    SceneToEditorInverts(p);
  }

  // ---------------------------------------------------------------------------
  // Light markers: one editor marker instance per point light
  // ---------------------------------------------------------------------------

  /**
   * The editor's light markers stand for the scene's point lights: marker e for the
   * point light with editor ID e. Markers are opaque instance IDs, so only the count
   * can be checked here; DeleteLightMarkers states which marker stays with which light.
   */
  ghost predicate LightMarkersMatch(lights: seq<LightKind>, markers: seq<InstanceId>)
  {
    |markers| == |PointLights(lights)|
  }

  /**
   * The light markers after the light-removal button of renderLightElements, AS
   * WRITTEN: the marker at mLightIDSceneToEditor[i] is deleted whatever kind of light
   * i is. For a light that is not a point light, operator[] finds no entry and
   * yields 0, so the first point light's marker is deleted.
   */
  function DeleteLightMarkersAsWritten(lights: seq<LightKind>, markers: seq<InstanceId>, i: nat): (r: seq<InstanceId>)
    requires i < |lights|
    requires var toEditor := SceneToEditor(PointLights(lights));
      (if i in toEditor then toEditor[i] else 0) < |markers|
    ensures |r| == |markers| - 1
  {
    var toEditor := SceneToEditor(PointLights(lights));
    RemoveAt(markers, if i in toEditor then toEditor[i] else 0)
  }

  /** Deleting a light that is not a point light removes the first point light's marker. */
  lemma DeleteOtherLightLosesPointLightMarker()
    ensures var lights := [PointLight, OtherLight];
      && LightMarkersMatch(lights, [7])
      && DeleteLightMarkersAsWritten(lights, [7], 1) == []
      && !LightMarkersMatch(RemoveAt(lights, 1), DeleteLightMarkersAsWritten(lights, [7], 1))
  {
    var lights := [PointLight, OtherLight];
    assert PointLightsBefore(lights, 1) == [0];
    assert PointLights(lights) == [0];
    assert RemoveAt(lights, 1) == [PointLight];
    assert PointLightsBefore([PointLight], 1) == [0];
  }

  /** The corrected removal: only a point light has a marker to delete. */
  function DeleteLightMarkers(lights: seq<LightKind>, markers: seq<InstanceId>, i: nat): (r: seq<InstanceId>)
    requires i < |lights| && LightMarkersMatch(lights, markers)
    ensures LightMarkersMatch(RemoveAt(lights, i), r)
    ensures lights[i] != PointLight ==> r == markers
    ensures forall e :: 0 <= e < |r| ==>
      var e0 := EditorIDBeforeRemoval(lights, i, e);
      && e0 < |markers| && r[e] == markers[e0]
      && IndexBeforeRemoval(PointLights(RemoveAt(lights, i))[e], i) == PointLights(lights)[e0]
  {
    PointLightsAfterRemoval(lights, i);
    if lights[i] == PointLight then
      PointLightEditorID(lights, i);
      var toEditor := SceneToEditor(PointLights(lights));
      RemoveAt(markers, toEditor[i])
    else
      markers
  }

  // ---------------------------------------------------------------------------
  // The selected light across a light deletion
  // ---------------------------------------------------------------------------

  /** No instance ID occurs twice. */
  ghost predicate DistinctIds(s: seq<InstanceId>)
  {
    forall a, b :: 0 <= a < b < |s| ==> s[a] != s[b]
  }

  /**
   * The Remove button of renderLightElements, AS WRITTEN, leaves mSelectedLight and
   * the selection as they were. Selecting marker 11 of point lights [0, 1] with
   * markers [10, 11] sets mSelectedLight to 1; deleting light 1 then leaves it past
   * the end of the light list. With three point lights and markers [10, 11, 12],
   * deleting light 0 leaves marker 11 standing for scene light 0 while
   * mSelectedLight still names 1, so a drag moves another light.
   */
  lemma DeleteLightLeavesSelectedLightStale()
    ensures var lights, markers := [PointLight, PointLight], [10, 11];
      && LightMarkersMatch(lights, markers)
      && PointLights(lights)[FirstIndexOf(markers, 11)] == 1
      && !(1 < |RemoveAt(lights, 1)|)
    ensures var lights, markers := [PointLight, PointLight, PointLight], [10, 11, 12];
      && LightMarkersMatch(lights, markers)
      && PointLights(lights)[FirstIndexOf(markers, 11)] == 1
      && var after := DeleteLightMarkers(lights, markers, 0);
         && FirstIndexOf(after, 11) < |after|
         && PointLights(RemoveAt(lights, 0))[FirstIndexOf(after, 11)] == 0
  {
    var two, three := [PointLight, PointLight], [PointLight, PointLight, PointLight];
    assert PointLightsBefore(two, 1) == [0];
    assert PointLights(two) == [0, 1];
    assert PointLightsBefore(three, 1) == [0];
    assert PointLightsBefore(three, 2) == [0, 1];
    assert PointLights(three) == [0, 1, 2];
    assert RemoveAt(three, 0) == two;
    var after := DeleteLightMarkers(three, [10, 11, 12], 0);
    PointLightEditorID(three, 0);
    assert after == [11, 12];
  }

  /**
   * The selected light after light i is deleted, corrected: none when the selected
   * light itself goes, otherwise the same light under its new scene index.
   */
  function SelectedLightAfterDelete(selectedLight: nat, i: nat): (r: Option<nat>)
    ensures r.None? <==> selectedLight == i
    ensures r.Some? ==> IndexBeforeRemoval(r.value, i) == selectedLight
  {
    if selectedLight == i then None
    else Some(if selectedLight < i then selectedLight else selectedLight - 1)
  }

  /**
   * The corrected selected light keeps standing for the selected marker: if the
   * selected light was the one marker m stands for, then after deleting light i
   * either m is gone with it, or the new selected light is the one m stands for in
   * the new lists.
   */
  lemma SelectedLightFollowsMarker(lights: seq<LightKind>, markers: seq<InstanceId>, i: nat, m: InstanceId)
    requires i < |lights| && LightMarkersMatch(lights, markers) && DistinctIds(markers) && m in markers
    ensures var after := DeleteLightMarkers(lights, markers, i);
      match SelectedLightAfterDelete(PointLights(lights)[FirstIndexOf(markers, m)], i)
        case None => m !in after
        case Some(s) =>
          && FirstIndexOf(after, m) < |after| && s < |RemoveAt(lights, i)|
          && s == PointLights(RemoveAt(lights, i))[FirstIndexOf(after, m)]
  {
    var k := FirstIndexOf(markers, m);
    if PointLights(lights)[k] == i {
      DeletedLightLosesMarker(lights, markers, i, k);
    } else {
      MovedLightKeepsMarker(lights, markers, i, k);
      var after := DeleteLightMarkers(lights, markers, i);
      assert FirstIndexOf(after, m) == EditorIDAfterRemoval(lights, i, k);
    }
  }

  /** The marker of the deleted light is gone from the markers that remain. */
  lemma DeletedLightLosesMarker(lights: seq<LightKind>, markers: seq<InstanceId>, i: nat, k: nat)
    requires i < |lights| && LightMarkersMatch(lights, markers) && DistinctIds(markers)
    requires k < |markers| && PointLights(lights)[k] == i
    ensures markers[k] !in DeleteLightMarkers(lights, markers, i)
  {
    var after := DeleteLightMarkers(lights, markers, i);
    PointLightEditorID(lights, i);
    PointLightsBeforeIncreasing(lights, |lights|);
    assert k == |PointLightsBefore(lights, i)|;
    forall e | 0 <= e < |after|
      ensures after[e] != markers[k]
    {
      assert EditorIDBeforeRemoval(lights, i, e) != k;
    }
  }

  /**
   * The editor ID a point light has after light i was removed, given its editor ID k
   * before: the inverse of EditorIDBeforeRemoval.
   */
  function EditorIDAfterRemoval(lights: seq<LightKind>, i: nat, k: nat): nat
    requires i < |lights|
  {
    if lights[i] == PointLight && k > |PointLightsBefore(lights, i)| then k - 1 else k
  }

  /**
   * The marker of a light that stays is found, first, at the light's new editor ID,
   * and the light there is the one it stood for.
   */
  lemma MovedLightKeepsMarker(lights: seq<LightKind>, markers: seq<InstanceId>, i: nat, k: nat)
    requires i < |lights| && LightMarkersMatch(lights, markers) && DistinctIds(markers)
    requires k < |markers| && PointLights(lights)[k] != i
    ensures var after, e := DeleteLightMarkers(lights, markers, i), EditorIDAfterRemoval(lights, i, k);
      && e < |after| && after[e] == markers[k]
      && (forall e' :: 0 <= e' < e ==> after[e'] != markers[k])
      && IndexBeforeRemoval(PointLights(RemoveAt(lights, i))[e], i) == PointLights(lights)[k]
  {
    if lights[i] == PointLight {
      PointLightEditorID(lights, i);
    }
    var e := EditorIDAfterRemoval(lights, i, k);
    assert EditorIDBeforeRemoval(lights, i, e) == k;
    var after := DeleteLightMarkers(lights, markers, i);
    forall e' | 0 <= e' < e
      ensures after[e'] != markers[k]
    {
      assert EditorIDBeforeRemoval(lights, i, e') < k;
    }
  }

  // ---------------------------------------------------------------------------
  // Model name (addModel)
  // ---------------------------------------------------------------------------

  /** std::string::find_last_of: the last index holding one of the characters. */
  function FindLastOf(s: string, chars: set<char>): (r: Option<nat>)
    ensures r.None? <==> forall i :: 0 <= i < |s| ==> s[i] !in chars
    ensures r.Some? ==> r.value < |s| && s[r.value] in chars
    ensures r.Some? ==> forall i :: r.value < i < |s| ==> s[i] !in chars
  {
    if s == [] then None
    else if s[|s| - 1] in chars then Some(|s| - 1)
    else FindLastOf(s[..|s| - 1], chars)
  }

  const PathSeparators: set<char> := {'/', '\\'}

  /** The part of a file name after its last '/' or '\', or the whole name when it has neither. */
  function FileBaseName(filename: string): (r: string)
    ensures forall i :: 0 <= i < |r| ==> r[i] !in PathSeparators
    ensures |r| <= |filename| && r == filename[|filename| - |r|..]
    ensures |r| < |filename| ==> filename[|filename| - |r| - 1] in PathSeparators
  {
    match FindLastOf(filename, PathSeparators)
    case None => filename
    case Some(offset) => filename[offset + 1..]
  }

  /** The name with everything from its last '.' removed, or the whole name when it has none. */
  function StripLastExtension(name: string): (r: string)
    ensures |r| <= |name| && r == name[..|r|]
    ensures |r| < |name| ==> name[|r|] == '.' && forall i :: |r| < i < |name| ==> name[i] != '.'
    ensures |r| == |name| ==> forall i :: 0 <= i < |name| ==> name[i] != '.'
  {
    match FindLastOf(name, {'.'})
    case None => name
    case Some(offset) => name[..offset]
  }

  /** The model name addModel derives from the chosen file name. */
  function ModelName(filename: string): (r: string)
    ensures forall i :: 0 <= i < |r| ==> r[i] !in PathSeparators
  {
    StripLastExtension(FileBaseName(filename))
  }

  /**
   * For a file `dir + sep + base + "." + ext` whose base has no separator and whose
   * extension has neither a separator nor a '.', the model name is base.
   */
  lemma ModelNameOfPath(dir: string, sep: char, base: string, ext: string)
    requires sep in PathSeparators
    requires forall i :: 0 <= i < |base| ==> base[i] !in PathSeparators
    requires forall i :: 0 <= i < |ext| ==> ext[i] !in PathSeparators && ext[i] != '.'
    ensures ModelName(dir + [sep] + base + "." + ext) == base
  {
    var f := dir + [sep] + base + "." + ext;
    var tail := base + "." + ext;
    assert f == dir + [sep] + tail;
    assert forall i :: 0 <= i < |tail| ==> tail[i] !in PathSeparators;
    var b := FileBaseName(f);
    assert f[|f| - |tail| - 1] == sep;
    assert |b| == |tail|;
    var r := StripLastExtension(tail);
    assert tail[|base|] == '.';
    assert r == base;
  }

  // ---------------------------------------------------------------------------
  // Path dropdown list (getPathDropdownList)
  // ---------------------------------------------------------------------------

  datatype DropdownValue = DropdownValue(text: string, value: nat)

  /**
   * The "None" entry first when asked for, then one entry per scene path, labelled
   * with the path's name and valued with its index.
   */
  function PathDropdownList(paths: seq<ScenePath>, includeDefault: bool): (r: seq<DropdownValue>)
    requires |paths| < NoPath
    ensures |r| == |paths| + (if includeDefault then 1 else 0)
    ensures includeDefault ==> r[0] == DropdownValue("None", NoPath)
    // every entry selects "no path" or one path by its index, under that path's name
    ensures forall v :: v in r ==> v.value == NoPath || (v.value < |paths| && v.text == paths[v.value].name)
    ensures forall v :: v in r && v.value == NoPath ==> includeDefault && v == r[0]
    // every path is offered, in scene order
    ensures forall i :: 0 <= i < |paths| ==>
      r[i + (if includeDefault then 1 else 0)] == DropdownValue(paths[i].name, i)
  {
    var entries := seq(|paths|, i requires 0 <= i < |paths| => DropdownValue(paths[i].name, i));
    if includeDefault then [DropdownValue("None", NoPath)] + entries else entries
  }

  // ---------------------------------------------------------------------------
  // Path attachments (mObjToPathMap)
  // ---------------------------------------------------------------------------

  function PathRefs(paths: seq<ScenePath>): set<PathRef>
  {
    set i | 0 <= i < |paths| :: paths[i].ref
  }

  /**
   * The editor's object-to-path map agrees with the paths' own attachment sets:
   * paths are distinct, every entry names a scene path, and an object is attached to
   * a path exactly when the map sends it there (so to at most one path).
   */
  ghost predicate AttachmentsConsistent(paths: seq<ScenePath>, objToPath: map<ObjectId, PathRef>)
  {
    && (forall i, j :: 0 <= i < j < |paths| ==> paths[i].ref != paths[j].ref)
    && (forall o :: o in objToPath ==> objToPath[o] in PathRefs(paths))
    && (forall i, o :: 0 <= i < |paths| ==>
          (o in paths[i].attached <==> o in objToPath && objToPath[o] == paths[i].ref))
  }

  /** The map entries for one path's attached objects. */
  function PathEntries(path: ScenePath): (m: map<ObjectId, PathRef>)
    ensures m.Keys == path.attached
    ensures forall o :: o in m ==> m[o] == path.ref
  {
    map o | o in path.attached :: path.ref
  }

  /** The map initializeEditorObjects builds: each attached object of the first n paths, sent to its path. */
  function AttachmentMap(paths: seq<ScenePath>, n: nat): (m: map<ObjectId, PathRef>)
    requires n <= |paths|
    decreases n
  {
    if n == 0 then map[] else AttachmentMap(paths, n - 1) + PathEntries(paths[n - 1])
  }

  ghost predicate AttachmentsDisjoint(paths: seq<ScenePath>)
  {
    forall i, j :: 0 <= i < j < |paths| ==> paths[i].attached !! paths[j].attached
  }

  lemma {:induction false} AttachmentMapEntries(paths: seq<ScenePath>, n: nat)
    requires n <= |paths| && AttachmentsDisjoint(paths)
    ensures forall o :: o in AttachmentMap(paths, n) ==>
      exists i :: 0 <= i < n && o in paths[i].attached && AttachmentMap(paths, n)[o] == paths[i].ref
    ensures forall i, o :: 0 <= i < n && o in paths[i].attached ==>
      o in AttachmentMap(paths, n) && AttachmentMap(paths, n)[o] == paths[i].ref
    decreases n
  {
    if n > 0 {
      AttachmentMapEntries(paths, n - 1);
      var prev := AttachmentMap(paths, n - 1);
      var last := PathEntries(paths[n - 1]);
      var m := AttachmentMap(paths, n);
      assert m == prev + last;
      forall o | o in m
        ensures exists i :: 0 <= i < n && o in paths[i].attached && m[o] == paths[i].ref
      {
        if o in last {
          assert o in paths[n - 1].attached && m[o] == paths[n - 1].ref;
        } else {
          var i :| 0 <= i < n - 1 && o in paths[i].attached && prev[o] == paths[i].ref;
          assert m[o] == prev[o];
        }
      }
      forall i, o | 0 <= i < n && o in paths[i].attached
        ensures o in m && m[o] == paths[i].ref
      {
        if i < n - 1 {
          assert paths[i].attached !! paths[n - 1].attached;
          assert o !in last;
        }
      }
    }
  }

  /**
   * When the scene's paths are distinct and no object is attached to two of them,
   * the map built at start-up agrees with the paths' attachments.
   */
  lemma AttachmentMapConsistent(paths: seq<ScenePath>)
    requires forall i, j :: 0 <= i < j < |paths| ==> paths[i].ref != paths[j].ref
    requires AttachmentsDisjoint(paths)
    ensures AttachmentsConsistent(paths, AttachmentMap(paths, |paths|))
  {
    var m := AttachmentMap(paths, |paths|);
    AttachmentMapEntries(paths, |paths|);
    ConsistentFromEntries(paths, m);
  }

  /** The attachment loop of initializeEditorObjects: every attached object of every path is sent to that path. */
  method BuildAttachmentMap(paths: seq<ScenePath>) returns (m: map<ObjectId, PathRef>)
    ensures m == AttachmentMap(paths, |paths|)
  {
    m := map[];
    var pathID: nat := 0;
    while pathID < |paths|
      invariant pathID <= |paths|
      invariant m == AttachmentMap(paths, pathID)
    {
      m := m + PathEntries(paths[pathID]);
      pathID := pathID + 1;
    }
  }

  /** A map whose entries are exactly the attachments of distinct paths agrees with them. */
  lemma ConsistentFromEntries(paths: seq<ScenePath>, m: map<ObjectId, PathRef>)
    requires forall i, j :: 0 <= i < j < |paths| ==> paths[i].ref != paths[j].ref
    requires forall o :: o in m ==> exists i :: 0 <= i < |paths| && o in paths[i].attached && m[o] == paths[i].ref
    requires forall i, o :: 0 <= i < |paths| && o in paths[i].attached ==> o in m && m[o] == paths[i].ref
    ensures AttachmentsConsistent(paths, m)
  {
    forall o | o in m
      ensures m[o] in PathRefs(paths)
    {
      var i :| 0 <= i < |paths| && o in paths[i].attached && m[o] == paths[i].ref;
      assert paths[i].ref in PathRefs(paths);
    }
    forall i, o | 0 <= i < |paths| && o in m && m[o] == paths[i].ref
      ensures o in paths[i].attached
    {
      var j :| 0 <= j < |paths| && o in paths[j].attached && m[o] == paths[j].ref;
      assert i == j;
    }
  }

  /** mLightIDEditorToScene grows by one pair when a point light is appended to the sequence. */
  lemma EditorToSceneExtend(p: seq<nat>, s: nat)
    ensures EditorToScene(p + [s]) == EditorToScene(p)[|p| := s]
  {
    var q := p + [s];
    assert q[..|q| - 1] == p && q[|q| - 1] == s;
  }

  /** mLightIDSceneToEditor grows by one pair when a point light is appended to the sequence. */
  lemma SceneToEditorExtend(p: seq<nat>, s: nat)
    ensures SceneToEditor(p + [s]) == SceneToEditor(p)[s := |p|]
  {
    var q := p + [s];
    assert q[..|q| - 1] == p && q[|q| - 1] == s;
  }

  /** The paths after detaching obj from path i, the path the map sends it to. */
  lemma DetachKeepsConsistent(paths: seq<ScenePath>, objToPath: map<ObjectId, PathRef>, obj: ObjectId, i: nat)
    requires AttachmentsConsistent(paths, objToPath)
    requires i < |paths| && obj in objToPath && objToPath[obj] == paths[i].ref
    ensures var paths' := paths[i := paths[i].(attached := paths[i].attached - {obj})];
      && AttachmentsConsistent(paths', objToPath - {obj})
      && PathRefs(paths') == PathRefs(paths)
      && forall j :: 0 <= j < |paths'| ==> obj !in paths'[j].attached
  {
    var paths' := paths[i := paths[i].(attached := paths[i].attached - {obj})];
    assert forall j :: 0 <= j < |paths| ==> paths'[j].ref == paths[j].ref;
    assert PathRefs(paths') == PathRefs(paths);
  }

  /** Attaching an object that is on no path to path i. */
  lemma AttachKeepsConsistent(paths: seq<ScenePath>, objToPath: map<ObjectId, PathRef>, obj: ObjectId, i: nat)
    requires AttachmentsConsistent(paths, objToPath)
    requires i < |paths| && obj !in objToPath
    ensures var paths' := paths[i := paths[i].(attached := paths[i].attached + {obj})];
      && AttachmentsConsistent(paths', objToPath[obj := paths[i].ref])
      && PathRefs(paths') == PathRefs(paths)
  {
    var paths' := paths[i := paths[i].(attached := paths[i].attached + {obj})];
    assert forall j :: 0 <= j < |paths| ==> paths'[j].ref == paths[j].ref;
    assert PathRefs(paths') == PathRefs(paths);
    assert paths[i].ref in PathRefs(paths);
  }

  /** addPath: a new path with nothing attached, whose object no path already is, keeps the map consistent. */
  lemma AddPathKeepsConsistent(paths: seq<ScenePath>, objToPath: map<ObjectId, PathRef>, path: ScenePath)
    requires AttachmentsConsistent(paths, objToPath)
    requires path.ref !in PathRefs(paths) && path.attached == {}
    ensures AttachmentsConsistent(paths + [path], objToPath)
    ensures PathRefs(paths + [path]) == PathRefs(paths) + {path.ref}
  {
    var paths' := paths + [path];
    assert forall i :: 0 <= i < |paths| ==> paths'[i] == paths[i] && paths[i].ref in PathRefs(paths);
    forall r | r in PathRefs(paths')
      ensures r in PathRefs(paths) + {path.ref}
    {
      var i :| 0 <= i < |paths'| && paths'[i].ref == r;
      if i < |paths| {
        assert paths[i].ref == r;
      }
    }
    assert paths'[|paths|].ref == path.ref;
  }

  /** PathObject::detachObject and the map entry's erasure: obj leaves path i, where the map sends it. */
  function Detach(paths: seq<ScenePath>, objToPath: map<ObjectId, PathRef>, obj: ObjectId, i: nat)
    : (r: (seq<ScenePath>, map<ObjectId, PathRef>))
    requires AttachmentsConsistent(paths, objToPath)
    requires i < |paths| && obj in objToPath && objToPath[obj] == paths[i].ref
    ensures AttachmentsConsistent(r.0, r.1)
    ensures |r.0| == |paths| && forall j :: 0 <= j < |paths| ==> r.0[j].ref == paths[j].ref && r.0[j].name == paths[j].name
    ensures r.1 == objToPath - {obj}
    ensures forall j :: 0 <= j < |r.0| ==> obj !in r.0[j].attached
  {
    DetachKeepsConsistent(paths, objToPath, obj, i);
    (paths[i := paths[i].(attached := paths[i].attached - {obj})], objToPath - {obj})
  }

  /** PathObject::attachObject and the new map entry: obj, on no path, joins path i. */
  function Attach(paths: seq<ScenePath>, objToPath: map<ObjectId, PathRef>, obj: ObjectId, i: nat)
    : (r: (seq<ScenePath>, map<ObjectId, PathRef>))
    requires AttachmentsConsistent(paths, objToPath)
    requires i < |paths| && obj !in objToPath
    ensures AttachmentsConsistent(r.0, r.1)
    ensures |r.0| == |paths| && forall j :: 0 <= j < |paths| ==> r.0[j].ref == paths[j].ref && r.0[j].name == paths[j].name
    ensures r.1 == objToPath[obj := paths[i].ref] && r.1 - {obj} == objToPath - {obj}
    ensures obj in r.0[i].attached
  {
    AttachKeepsConsistent(paths, objToPath, obj, i);
    (paths[i := paths[i].(attached := paths[i].attached + {obj})], objToPath[obj := paths[i].ref])
  }

  /**
   * setObjectPath's update for a new dropdown choice: obj is detached from path
   * oldID, where the map sends it (kNoPath when it is on no path), and attached to
   * path newID unless newID is kNoPath.
   */
  function Reattach(paths: seq<ScenePath>, objToPath: map<ObjectId, PathRef>, obj: ObjectId, oldID: nat, newID: nat)
    : (r: (seq<ScenePath>, map<ObjectId, PathRef>))
    requires AttachmentsConsistent(paths, objToPath)
    requires oldID == NoPath ==> obj !in objToPath
    requires oldID != NoPath ==> oldID < |paths| && obj in objToPath && objToPath[obj] == paths[oldID].ref
    requires newID == NoPath || newID < |paths|
    ensures AttachmentsConsistent(r.0, r.1)
    ensures |r.0| == |paths| && forall i :: 0 <= i < |paths| ==> r.0[i].ref == paths[i].ref && r.0[i].name == paths[i].name
    ensures r.1 - {obj} == objToPath - {obj}
    ensures newID == NoPath ==> obj !in r.1 && forall i :: 0 <= i < |r.0| ==> obj !in r.0[i].attached
    ensures newID != NoPath ==> obj in r.1 && r.1[obj] == paths[newID].ref && obj in r.0[newID].attached
  {
    if oldID == NoPath && newID == NoPath then (paths, objToPath)
    else if oldID == NoPath then Attach(paths, objToPath, obj, newID)
    else if newID == NoPath then Detach(paths, objToPath, obj, oldID)
    else
      var detached := Detach(paths, objToPath, obj, oldID);
      Attach(detached.0, detached.1, obj, newID)
  }

  /**
   * Deleting path i after erasing the map entries of its attached objects: the map
   * again names only scene paths, and the other paths keep their attachments.
   */
  lemma DeletePathKeepsConsistent(paths: seq<ScenePath>, objToPath: map<ObjectId, PathRef>, i: nat)
    requires AttachmentsConsistent(paths, objToPath)
    requires i < |paths|
    ensures AttachmentsConsistent(RemoveAt(paths, i), objToPath - paths[i].attached)
  {
    var paths' := RemoveAt(paths, i);
    var m' := objToPath - paths[i].attached;
    forall o | o in m'
      ensures m'[o] in PathRefs(paths')
    {
      assert objToPath[o] in PathRefs(paths);
      var j :| 0 <= j < |paths| && paths[j].ref == objToPath[o];
      assert j != i;
      if j < i {
        assert paths'[j] == paths[j];
      } else {
        assert paths'[j - 1] == paths[j];
      }
    }
    forall j, o | 0 <= j < |paths'|
      ensures o in paths'[j].attached <==> o in m' && m'[o] == paths'[j].ref
    {
      var k := if j < i then j else j + 1;
      assert paths'[j] == paths[k];
      if o in paths[i].attached {
        assert objToPath[o] == paths[i].ref;
      }
    }
  }

  // ---------------------------------------------------------------------------
  // Model instances and the Euler-rotation table
  // ---------------------------------------------------------------------------

  /**
   * The scene's models and their instances, the editor's table of Euler rotations
   * (mInstanceEulerRotations, one entry per instance) and the selected model and
   * instance.
   */
  datatype ModelTables = ModelTables(
    models: seq<SceneModel>,
    instances: seq<seq<InstanceId>>,
    rotations: seq<seq<Vec3>>,
    selectedModel: nat,
    selectedInstance: nat)

  /** The rotation table runs parallel to the instances, every model has an instance, and the selection is in range. */
  ghost predicate TablesValid(t: ModelTables)
  {
    && |t.instances| == |t.models| && |t.rotations| == |t.models|
    && (forall m :: 0 <= m < |t.models| ==> |t.rotations[m]| == |t.instances[m]| && |t.instances[m]| > 0)
    && (t.models != [] ==> t.selectedModel < |t.models| && t.selectedInstance < |t.instances[t.selectedModel]|)
  }

  /** deleteModel(): the selected model leaves the scene and the rotation table; the selection resets to 0. */
  function DeleteSelectedModel(t: ModelTables): (r: ModelTables)
    requires TablesValid(t) && t.models != []
    ensures TablesValid(r)
    ensures |r.models| == |t.models| - 1
    ensures r.selectedModel == 0 && r.selectedInstance == 0
  {
    ModelTables(RemoveAt(t.models, t.selectedModel), RemoveAt(t.instances, t.selectedModel),
                RemoveAt(t.rotations, t.selectedModel), 0, 0)
  }

  /** Removes the selected instance from the scene and from the rotation table; the instance selection resets to 0. */
  function RemoveSelectedInstance(t: ModelTables): (r: ModelTables)
    requires TablesValid(t) && t.models != []
  {
    t.(instances := t.instances[t.selectedModel := RemoveAt(t.instances[t.selectedModel], t.selectedInstance)],
       rotations := t.rotations[t.selectedModel := RemoveAt(t.rotations[t.selectedModel], t.selectedInstance)],
       selectedInstance := 0)
  }

  /**
   * deleteModelInstance AS WRITTEN: when the model has a single instance the user is
   * asked whether to remove the whole model; on Ok the model is deleted, but on Cancel
   * control falls through and the instance is deleted anyway.
   */
  function DeleteInstanceAsWritten(t: ModelTables, confirmed: bool): (r: ModelTables)
    requires TablesValid(t) && t.models != []
  {
    if |t.instances[t.selectedModel]| == 1 && confirmed then DeleteSelectedModel(t)
    else RemoveSelectedInstance(t)
  }

  /** Cancelling the prompt leaves a model with no instance, and the selected instance out of range. */
  lemma CancelStillDeletesOnlyInstance(v: Vec3)
    ensures var t := ModelTables([SceneModel(1, "chair")], [[5]], [[v]], 0, 0);
      && TablesValid(t)
      && DeleteInstanceAsWritten(t, false).instances == [[]]
      && !TablesValid(DeleteInstanceAsWritten(t, false))
  {
  }

  /**
   * deleteModelInstance as intended: declining the prompt changes nothing; otherwise
   * the model or the instance is removed.
   */
  function DeleteInstance(t: ModelTables, confirmed: bool): (r: ModelTables)
    requires TablesValid(t) && t.models != []
    ensures TablesValid(r)
    ensures |t.instances[t.selectedModel]| == 1 && !confirmed ==> r == t
    ensures |t.instances[t.selectedModel]| == 1 && confirmed ==> r == DeleteSelectedModel(t)
    ensures |t.instances[t.selectedModel]| > 1 ==>
      && r.models == t.models && r.selectedModel == t.selectedModel && r.selectedInstance == 0
      && r.instances[t.selectedModel] == RemoveAt(t.instances[t.selectedModel], t.selectedInstance)
      && r.rotations[t.selectedModel] == RemoveAt(t.rotations[t.selectedModel], t.selectedInstance)
      && (forall m :: 0 <= m < |t.models| && m != t.selectedModel ==>
            r.instances[m] == t.instances[m] && r.rotations[m] == t.rotations[m])
  {
    if |t.instances[t.selectedModel]| == 1 then
      (if confirmed then DeleteSelectedModel(t) else t)
    else
      RemoveSelectedInstance(t)
  }

  /** The two agree except when the user cancels removing a model's only instance. */
  lemma DeleteInstanceDiffersOnlyOnCancel(t: ModelTables, confirmed: bool)
    requires TablesValid(t) && t.models != []
    ensures DeleteInstanceAsWritten(t, confirmed) != DeleteInstance(t, confirmed)
      <==> |t.instances[t.selectedModel]| == 1 && !confirmed
  {
    if |t.instances[t.selectedModel]| == 1 && !confirmed {
      assert |DeleteInstanceAsWritten(t, confirmed).instances[t.selectedModel]| == 0;
    }
  }

  /** addModelInstance: the new instance and its rotation are appended to the selected model and become selected. */
  function AddInstance(t: ModelTables, id: InstanceId, rotation: Vec3): (r: ModelTables)
    requires TablesValid(t) && t.models != []
    ensures TablesValid(r)
    ensures r.models == t.models && r.selectedModel == t.selectedModel
    ensures r.instances[t.selectedModel] == t.instances[t.selectedModel] + [id]
    ensures r.rotations[t.selectedModel] == t.rotations[t.selectedModel] + [rotation]
    ensures r.selectedInstance == |t.instances[t.selectedModel]|
    ensures forall m :: 0 <= m < |t.models| && m != t.selectedModel ==>
      r.instances[m] == t.instances[m] && r.rotations[m] == t.rotations[m]
  {
    t.(instances := t.instances[t.selectedModel := t.instances[t.selectedModel] + [id]],
       rotations := t.rotations[t.selectedModel := t.rotations[t.selectedModel] + [rotation]],
       selectedInstance := |t.instances[t.selectedModel]|)
  }

  /** The decimal digits of n, as std::to_string writes them. */
  function DecimalString(n: nat): (r: string)
    ensures |r| > 0
    ensures forall i :: 0 <= i < |r| ==> '0' <= r[i] <= '9'
    ensures n >= 10 ==> r[0] != '0'
    ensures n < 10 <==> |r| == 1
    decreases n
  {
    var digit := ['0' + (n % 10) as char];
    if n < 10 then digit else DecimalString(n / 10) + digit
  }

  /** The number a string of decimal digits denotes, most significant digit first. */
  function DigitsValue(s: string): nat
    requires forall i :: 0 <= i < |s| ==> '0' <= s[i] <= '9'
  {
    if s == [] then 0 else DigitsValue(s[..|s| - 1]) * 10 + (s[|s| - 1] - '0') as int
  }

  /** The decimal string of n reads back as n. */
  lemma {:induction false} DecimalStringValue(n: nat)
    ensures DigitsValue(DecimalString(n)) == n
    decreases n
  {
    var r := DecimalString(n);
    if n >= 10 {
      assert r[..|r| - 1] == DecimalString(n / 10);
      DecimalStringValue(n / 10);
    }
  }

  /** Distinct numbers have distinct decimal strings. */
  lemma {:induction false} DecimalStringInjective(n: nat, m: nat)
    requires DecimalString(n) == DecimalString(m)
    ensures n == m
    decreases n
  {
    var a, b := DecimalString(n), DecimalString(m);
    assert a[|a| - 1] == b[|b| - 1];
    assert n % 10 == m % 10;
    if n >= 10 && m >= 10 {
      assert DecimalString(n / 10) == a[..|a| - 1];
      assert DecimalString(m / 10) == b[..|b| - 1];
      DecimalStringInjective(n / 10, m / 10);
    }
  }

  /**
   * The name addModelInstance gives the new instance AS WRITTEN: `"Instance " + n`
   * adds an integer to a character pointer, so the name is the literal with its first
   * n characters skipped (reading past the literal once n exceeds its length).
   */
  function InstanceNameAsWritten(n: nat): (r: string)
    requires n <= |"Instance "|
    ensures |r| == |"Instance "| - n
  {
    "Instance "[n..]
  }

  /** The second instance of a model is named "nstance " and carries no number. */
  lemma SecondInstanceNameLosesNumber()
    ensures InstanceNameAsWritten(1) == "nstance "
    ensures InstanceNameAsWritten(1) != "Instance " + DecimalString(1)
  {
  }

  /** The intended name: "Instance " followed by the instance index. */
  function InstanceName(n: nat): (r: string)
    ensures |r| > |"Instance "| && r[..|"Instance "|] == "Instance "
  {
    "Instance " + DecimalString(n)
  }

  /** Instances added at different indices get different names. */
  lemma InstanceNamesDistinct(n: nat, m: nat)
    requires n != m
    ensures InstanceName(n) != InstanceName(m)
  {
    if InstanceName(n) == InstanceName(m) {
      assert DecimalString(n) == InstanceName(n)[|"Instance "|..];
      DecimalStringInjective(n, m);
    }
  }

  /** addModel: a new model with one instance and one rotation entry, selected. */
  function AppendModel(t: ModelTables, model: SceneModel, id: InstanceId, rotation: Vec3): (r: ModelTables)
    requires TablesValid(t)
    ensures TablesValid(r)
    ensures r.models == t.models + [model]
    ensures r.instances == t.instances + [[id]] && r.rotations == t.rotations + [[rotation]]
    ensures r.selectedModel == |t.models| && r.selectedInstance == 0
  {
    ModelTables(t.models + [model], t.instances + [[id]], t.rotations + [[rotation]], |t.models|, 0)
  }

  /** The index of the first model whose asset is the given one, or |models|. */
  function ModelIndexOf(models: seq<SceneModel>, asset: AssetId): (m: nat)
    ensures m <= |models|
    ensures m < |models| ==> models[m].asset == asset
    ensures forall j :: 0 <= j < m ==> models[j].asset != asset
  {
    if models == [] then 0
    else if models[0].asset == asset then 0
    else 1 + ModelIndexOf(models[1..], asset)
  }

  /** A set with at most one element that holds x is {x}. */
  lemma SingletonSet<T>(s: set<T>, x: T)
    requires |s| <= 1 && x in s
    ensures s == {x}
  {
    assert s == (s - {x}) + {x};
    assert |s - {x}| == 0;
    assert s - {x} == {};
  }
}
