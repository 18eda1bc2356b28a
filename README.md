# Falcor scene-editor bookkeeping, modelled in Dafny

This project models the editing layer of the Falcor framework. That layer sits
between a scene and the tools that change it:

- **`SceneEditor`** keeps the following state:
  - the user's selection and its category (model instance, camera, light or keyframe);
  - the visibility of the three gizmos and the drag-or-click state of the mouse;
  - two maps between scene light IDs and editor point-light IDs;
  - the map from movable objects to the path they are attached to;
  - the table of Euler rotations kept beside the scene's model instances;
  - the scene-dirty flag.
  Each GUI action (add or remove a model, an instance, a light, a camera or a
  path; attach an object to a path; select by clicking) is a method of the
  `SceneEditing.SceneEditor` class. Each method states every field it may change,
  except where "Left out" names a method and what its contract leaves open.
- **`PathEditor`** edits the keyframes of one `ObjectPath`. It keeps the active
  frame and the edited frame time, and fires three callbacks in a fixed order.
- **`DebugDrawer`** fills a vertex list of fixed capacity, two vertices per line,
  and empties it on render.
- **`PathRenderer`** turns a path into a polyline of ten pieces per keyframe
  segment.
- **`Framework.h`** provides the integer helpers the rest relies on: `clamp`,
  `isPowerOf2`, `getLowerPowerOf2`, `align_to`, the bit-flag operators of
  `FboAttachmentType` and `to_string(ShaderType)`.

## How the editor is modelled

- **The scene.** It is an external container. The editor holds the parts it reads
  and changes:
  - the kinds of the lights;
  - the paths, each with a name and a set of attached objects;
  - the models and their instance lists;
  - the camera count and the active camera.
- **The editor scene.** It is represented by its marker instances: one per camera,
  one per point light and one per keyframe.
- **Shared pointers.** They become numeric identities.
- **Inputs.** Everything the editor receives from outside becomes a method
  parameter:
  - a GUI button that fired, a dropdown choice or a message-box answer;
  - a file-dialog result, or whether a model file loaded;
  - what the two pickers hit and whether the active gizmo accepts the pick;
  - the time of a mouse event;
  - the Euler rotation the scene reports for a new model instance (addModel,
    addModelInstance) or for the selected instance after a drag step;
  - the identity of a newly created object.
- **Callbacks.** Calls the editor makes into objects it does not own are
  recorded in logs:
  - `requestedFrames` holds the keyframes handed to the path editor's `setActiveFrame`;
  - `transformed` holds the objects a gizmo delta was applied to;
  - `fired` holds the path editor's callbacks.
- **The invariant.** `SceneEditor.Valid()` is the conjunction of six parts:
  - `SelectionValid`: at most one instance is selected;
  - `ModelsValid`: the rotation table runs parallel to the instances;
  - `LightsValid`: one marker per point light, and the two light-ID maps are inverse;
  - `PathsValid`: the object-to-path map agrees with the paths' attachments;
  - `CamerasValid`: one marker per camera, and the active camera is one of them once the scene has a camera;
  - `MarkersBounded`: the marker counts fit below `(uint32_t)-1`.
  The constructor establishes `Valid()`. Each method requires, and ensures again,
  the parts that concern the fields it changes.

Integers are unbounded. Three places model C++ unsigned behaviour explicitly:

- `deletePath`'s `getPathCount() - 1` wraps to `(uint32_t)-1`;
- the not-found value `(uint32_t)-1` of `findEditorModelInstanceID`;
- `isPowerOf2` works on 64-bit words.

## Model

| member | source | states |
|---|---|---|
| `Basics.Uint32Sub` | Framework/Source/Graphics/Scene/Editor/SceneEditor.cpp:1330-1333 | unsigned 32-bit subtraction: the plain difference when it is not negative, otherwise the difference plus 2^32 |
| `Basics.RemoveAt` | Framework/Source/Graphics/Scene/Editor/SceneEditor.cpp:1183 | vector::erase at i: earlier elements stay, later ones move down by one |
| `Framework.Clamp` | Framework/Source/Framework.h:113-117 | with an ordered range the result lies in it, equals v inside it, and equals the nearer bound outside it; with an inverted range the upper bound wins |
| `Framework.IsPowerOf2Characterization` | Framework/Source/Framework.h:119-124 | `t & (t - 1) == 0` holds exactly for words with at most one set bit, so for every power of two and also for 0 |
| `Framework.NoSetBitsOnlyForZero` | Framework/Source/Framework.h:119-124 | a word has no set bit exactly when it is 0 |
| `Framework.OddWordTest` | Framework/Source/Framework.h:119-124 | an odd word passes the test exactly when it is 1 |
| `Framework.EvenWordTest` | Framework/Source/Framework.h:119-124 | a nonzero even word passes exactly when half of it passes |
| `Framework.LowerPowerOf2` | Framework/Source/Framework.h:126-132 | for 0 < a < 2^32, the result is a power of two p with p <= a < 2p |
| `Framework.LowerPowerOf2Unique` | Framework/Source/Framework.h:126-132 | that power of two is the only one with p <= a < 2p |
| `Framework.AlignTo` | Framework/Source/Framework.h:70 | the result is the least multiple of the alignment that is at least v: a multiple, v <= r < v + alignment, and r == v when v is already aligned |
| `Framework.AlignToBounds` | Framework/Source/Framework.h:70 | ((v + a - 1) / a) * a is a multiple of a, lies in [v, v + a), and equals v when a divides v |
| `Framework.DivisionUnique` | Framework/Source/Framework.h:70 | a quotient and remainder with n == q*d + rem and rem < d are the ones `/` and `%` give |
| `Framework.MultipleModulo` | Framework/Source/Framework.h:70 | proof step for AlignTo: a multiple of d leaves remainder 0 |
| `Framework.MulAddOne` | Framework/Source/Framework.h:70 | proof step for DivisionUnique: distributing d over a + 1 + k |
| `Framework.Flags` | Framework/Source/Framework.h:101-109 | the set of named single-buffer flags (Color, Depth, Stencil) a value contains |
| `Framework.And` | Framework/Source/Framework.h:74 | operator&: the flags of the result are the flags both operands share, and no bit is outside a & b |
| `Framework.Or` | Framework/Source/Framework.h:75 | operator\|: the flags of the result are the union of the operands' flags, and each operand's bits are kept |
| `Framework.IsSet` | Framework/Source/Framework.h:78 | for a flag made of named bits, is_set holds exactly when val and flag share a named flag; it never holds for None |
| `Framework.AllContainsEverySingleFlag` | Framework/Source/Framework.h:101-108 | All is 7, contains Color, Depth and Stencil, and does not contain None |
| `Framework.FboAttachmentVar.constructor` | Framework/Source/Framework.h:111 | the variable holds the given value |
| `Framework.FboAttachmentVar.OrAssign` | Framework/Source/Framework.h:76 | operator\|=: the variable becomes a \| b and that value is returned; its flags gain b's |
| `Framework.FboAttachmentVar.AndAssign` | Framework/Source/Framework.h:77 | operator&=: the variable becomes a & b and that value is returned; its flags are narrowed to b's |
| `Framework.ShaderTypeName` | Framework/Source/Framework.h:154-172 | the five graphics stages have non-empty lower-case names; Compute and Count are outside the handled cases |
| `Framework.ShaderTypeNameInjective` | Framework/Source/Framework.h:154-172 | distinct stages have distinct names |
| `ObjectPaths.InsertPosition` | Framework/Source/Graphics/Paths/PathEditor.cpp:164 | the insertion index of a keyframe: every earlier frame is not later, the frame at the index is later |
| `ObjectPaths.Insert` | Framework/Source/Graphics/Paths/PathEditor.cpp:164 | the frames gain exactly the new keyframe (as a multiset), found at its insertion index |
| `ObjectPaths.ObjectPath.constructor` | Framework/Source/Graphics/Paths/PathEditor.cpp:116-126 | the path holds the given keyframes |
| `ObjectPaths.ObjectPath.AddKeyFrame` | Framework/Source/Graphics/Paths/PathEditor.cpp:164 | the keyframe is inserted in time order and the returned index is in range and holds it |
| `ObjectPaths.ObjectPath.RemoveKeyFrame` | Framework/Source/Graphics/Paths/PathEditor.cpp:175 | the frames become the old ones without frame i: earlier frames stay, later ones move down by one |
| `ObjectPaths.ObjectPath.SetFrameTime` | Framework/Source/Graphics/Paths/PathEditor.cpp:198 | the frame is re-placed by its new time; the count is kept and the returned index is in range and holds the re-timed frame |
| `PathEditing.PathEditor.constructor` | Framework/Source/Graphics/Paths/PathEditor.cpp:116-126 | the active frame is 0, no callback has fired, and the frame time is keyframe 0's time when there is one |
| `PathEditing.PathEditor.CloseEditor` | Framework/Source/Graphics/Paths/PathEditor.cpp:35-47 | returns whether the button fired; the edit-complete callback fires then and only if it is set; nothing else changes |
| `PathEditing.PathEditor.SetActiveFrame` | Framework/Source/Graphics/Paths/PathEditor.cpp:85-90 | the frame becomes active, the frame time follows it, and the active-changed callback fires once |
| `PathEditing.PathEditor.EditActiveFrameID` | Framework/Source/Graphics/Paths/PathEditor.cpp:74-83 | with keyframes and a change, the clamped value becomes the active frame as setActiveFrame makes it; otherwise nothing changes; the active frame stays in range |
| `PathEditing.PathEditor.AddFrame` | Framework/Source/Graphics/Paths/PathEditor.cpp:158-169 | a copy of the active keyframe at the edited time is inserted and becomes active; the callbacks fire add/remove then active-changed; without the button nothing changes |
| `PathEditing.PathEditor.DeleteFrame` | Framework/Source/Graphics/Paths/PathEditor.cpp:171-184 | with more than one keyframe the active one is removed, the active index is clamped to the new last one, and the callbacks fire add/remove then active-changed; otherwise nothing changes |
| `PathEditing.PathEditor.UpdateFrame` | Framework/Source/Graphics/Paths/PathEditor.cpp:186-203 | with keyframes the active frame is re-timed to the edited time and stays active at its new index; the callbacks fire add/remove then active-changed |
| `DebugDrawing.LineVertices` | Framework/Source/Graphics/Paths/DebugDrawer.cpp:45-46 | a line contributes its two end points, in order, in the given colour |
| `DebugDrawing.QuadOutline` | Framework/Source/Graphics/Paths/DebugDrawer.cpp:50-56 | a quad's outline is the closed loop q0-q1, q1-q2, q2-q3, q3-q0 in one colour |
| `DebugDrawing.DebugDrawer.constructor` | Framework/Source/Graphics/Paths/DebugDrawer.cpp:164-178 | the list is resized to maxVertices zero vertices, which is also its capacity |
| `DebugDrawing.DebugDrawer.SetColor` | Framework/Source/Graphics/Scene/Editor/SceneEditor.cpp:636 | the current colour changes and the vertices do not |
| `DebugDrawing.DebugDrawer.AddLine` | Framework/Source/Graphics/Paths/DebugDrawer.cpp:41-48 | the line is appended when two vertices still fit within the capacity; otherwise the list is unchanged; the list never exceeds the capacity |
| `DebugDrawing.DebugDrawer.AddQuad` | Framework/Source/Graphics/Paths/DebugDrawer.cpp:50-56 | exactly as many whole edges of the outline are appended, in order, as there are free vertex pairs, up to four |
| `DebugDrawing.DebugDrawer.Render` | Framework/Source/Graphics/Paths/DebugDrawer.cpp:153-162 | the draw covers every stored vertex and the list is then empty |
| `DebugDrawing.StartsFullUntilRender` | Framework/Source/Graphics/Paths/DebugDrawer.cpp:164-178 | a new drawer is full of zero vertices, so a line is ignored until the first render, and is kept after it |
| `PathRendering.PieceIndices` | Framework/Source/Graphics/Paths/PathRenderer.cpp:73-93 | the vertices of piece p of segment f sit at indices 20f + 2p and 20f + 2p + 1 |
| `PathRendering.PolylinePieces` | Framework/Source/Graphics/Paths/PathRenderer.cpp:73-93 | piece p of segment f runs from sample p to sample p + 1, so each piece starts where the previous one ended and each segment starts at its t = 0 sample |
| `PathRendering.PathRenderer.constructor` | Framework/Source/Graphics/Paths/PathRenderer.cpp:41-54 | the list is resized to maxVertices zero positions |
| `PathRendering.PathRenderer.RenderPath` | Framework/Source/Graphics/Paths/PathRenderer.cpp:66-99 | the list is cleared and refilled with 20 vertices per keyframe segment, each the sample its index names; the vertex count drawn equals the list length |
| `SceneBookkeeping.FirstIndexOf` | Framework/Source/Graphics/Scene/Editor/SceneEditor.cpp:1132-1143 | the first index holding x, or the length when x is absent |
| `SceneBookkeeping.FirstIndexOfAppended` | Framework/Source/Graphics/Scene/Editor/SceneEditor.cpp:1132-1143 | proof step: an ID appended to a list lacking it is found at the end |
| `SceneBookkeeping.PointLightsBefore` | Framework/Source/Graphics/Scene/Editor/SceneEditor.cpp:663-673 | the scene indices of the point lights among the first n lights, each below n and a point light |
| `SceneBookkeeping.PointLightsBeforeIncreasing` | Framework/Source/Graphics/Scene/Editor/SceneEditor.cpp:663-673 | editor IDs are handed out in increasing scene order |
| `SceneBookkeeping.PointLightsBeforeComplete` | Framework/Source/Graphics/Scene/Editor/SceneEditor.cpp:663-673 | every point light among the first n lights gets an editor ID |
| `SceneBookkeeping.PointLights` | Framework/Source/Graphics/Scene/Editor/SceneEditor.cpp:663-673 | the scene indices of all point lights, each in range and a point light |
| `SceneBookkeeping.EditorToScene` | Framework/Source/Graphics/Scene/Editor/SceneEditor.cpp:669 | mLightIDEditorToScene: the keys are exactly the editor IDs 0..k-1, each mapped to its point light |
| `SceneBookkeeping.SceneToEditor` | Framework/Source/Graphics/Scene/Editor/SceneEditor.cpp:670 | mLightIDSceneToEditor: every point light has an entry, and each entry names an editor ID that maps back to it |
| `SceneBookkeeping.SceneToEditorInverts` | Framework/Source/Graphics/Scene/Editor/SceneEditor.cpp:669-670 | for increasing scene indices, the scene-to-editor map sends each point light to its editor ID |
| `SceneBookkeeping.LightMapsAreInverse` | Framework/Source/Graphics/Scene/Editor/SceneEditor.cpp:657-675 | after rebuildLightIDMap the editor IDs are 0..k-1 in increasing scene order, only point lights have an editor ID, and the two maps undo each other |
| `SceneBookkeeping.RebuiltMapsAreLightIDMaps` | Framework/Source/Graphics/Scene/Editor/SceneEditor.cpp:657-675 | the maps built from the point-light sequence satisfy the light-ID map invariant |
| `SceneBookkeeping.BuildLightIDMaps` | Framework/Source/Graphics/Scene/Editor/SceneEditor.cpp:657-675 | the loop leaves both maps equal to those built from the point-light sequence |
| `SceneBookkeeping.EditorToSceneExtend` | Framework/Source/Graphics/Scene/Editor/SceneEditor.cpp:669 | a new point light adds exactly one editor-to-scene pair, under the next editor ID |
| `SceneBookkeeping.SceneToEditorExtend` | Framework/Source/Graphics/Scene/Editor/SceneEditor.cpp:670 | a new point light adds exactly one scene-to-editor pair |
| `SceneBookkeeping.RebuildStart` | Framework/Source/Graphics/Scene/Editor/SceneEditor.cpp:659-660 | before the loop no light has been seen and both maps are empty |
| `SceneBookkeeping.OtherLightKeepsPointLights` | Framework/Source/Graphics/Scene/Editor/SceneEditor.cpp:332-341 | appending a directional light leaves the point-light sequence, and so both maps, unchanged |
| `SceneBookkeeping.OtherLightKeepsPrefix` | Framework/Source/Graphics/Scene/Editor/SceneEditor.cpp:332-341 | appending a directional light leaves the point lights among the first n lights unchanged |
| `SceneBookkeeping.PointLightAppends` | Framework/Source/Graphics/Scene/Editor/SceneEditor.cpp:314-318 | appending a point light appends its scene index: it gets the next editor ID |
| `SceneBookkeeping.PointLightKeepsPrefix` | Framework/Source/Graphics/Scene/Editor/SceneEditor.cpp:314-318 | appending a point light leaves the point lights among the first n lights unchanged |
| `SceneBookkeeping.PointLightsBeforePrefix` | Framework/Source/Graphics/Scene/Editor/SceneEditor.cpp:663-673 | proof step: the editor IDs the loop hands out to the first m lights are kept as it visits more lights |
| `SceneBookkeeping.PointLightEditorID` | Framework/Source/Graphics/Scene/Editor/SceneEditor.cpp:663-673 | a point light has an editor ID, and it is the number of point lights before it |
| `SceneBookkeeping.PointLightsBeforeRemovalUnchanged` | Framework/Source/Graphics/Scene/Editor/SceneEditor.cpp:965 | proof step: deleting light i leaves the point lights before i as they were |
| `SceneBookkeeping.PointLightsBeforeRemoval` | Framework/Source/Graphics/Scene/Editor/SceneEditor.cpp:965 | proof step: the statement of PointLightsAfterRemoval for the first n remaining lights |
| `SceneBookkeeping.PointLightsAfterRemoval` | Framework/Source/Graphics/Scene/Editor/SceneEditor.cpp:965 | after deleting light i, the point-light count drops by one exactly when light i was a point light, and every remaining point light is the one that had its former scene index (one higher past i) and its former editor ID (one higher from light i's own ID on, when light i was a point light) |
| `SceneBookkeeping.DeleteLightMarkersAsWritten` | Framework/Source/Graphics/Scene/Editor/SceneEditor.cpp:965-970 | as written: one marker is always removed, the one at mLightIDSceneToEditor[i], which is 0 when light i is not a point light |
| `SceneBookkeeping.DeleteOtherLightLosesPointLightMarker` | Framework/Source/Graphics/Scene/Editor/SceneEditor.cpp:965-970 | with a point light and a directional light, deleting the directional light removes the point light's marker and breaks one marker per point light |
| `SceneBookkeeping.DeleteLightMarkers` | Framework/Source/Graphics/Scene/Editor/SceneEditor.cpp:961-978 | corrected: one marker per point light holds again after the deletion; deleting a light that is not a point light keeps every marker; every remaining point light keeps the marker it had, now at its new editor ID |
| `SceneBookkeeping.DeleteLightLeavesSelectedLightStale` | Framework/Source/Graphics/Scene/Editor/SceneEditor.cpp:961-978 | as written, mSelectedLight is left alone: after selecting marker 11 of two point lights and deleting its light, the index is past the end; after deleting an earlier light of three, marker 11 stands for scene light 0 while the index still names 1 |
| `SceneBookkeeping.SelectedLightAfterDelete` | Framework/Source/Graphics/Scene/Editor/SceneEditor.cpp:961-978 | corrected: the selection is dropped exactly when the selected light is the one deleted; otherwise the new index names the same light as before |
| `SceneBookkeeping.SelectedLightFollowsMarker` | Framework/Source/Graphics/Scene/Editor/SceneEditor.cpp:1070-1078 | if the selected light is the one the selected marker stands for, then after a light is deleted either the marker went with its light or the corrected selected light is, in range, the one the marker now stands for |
| `SceneBookkeeping.DeletedLightLosesMarker` | Framework/Source/Graphics/Scene/Editor/SceneEditor.cpp:967-970 | proof step: the deleted point light's marker is no longer among the markers |
| `SceneBookkeeping.MovedLightKeepsMarker` | Framework/Source/Graphics/Scene/Editor/SceneEditor.cpp:967-970 | proof step: a light that stays finds its marker first at its new editor ID, and that ID leads back to it |
| `SceneBookkeeping.FindLastOf` | Framework/Source/Graphics/Scene/Editor/SceneEditor.cpp:1159-1165 | find_last_of: None exactly when no character is in the set; otherwise the last index holding one |
| `SceneBookkeeping.FileBaseName` | Framework/Source/Graphics/Scene/Editor/SceneEditor.cpp:1159-1161 | a suffix of the file name with no separator, preceded by a separator unless it is the whole name |
| `SceneBookkeeping.StripLastExtension` | Framework/Source/Graphics/Scene/Editor/SceneEditor.cpp:1163-1165 | a prefix of the name that is followed by its last '.', or the whole name when it has no '.' |
| `SceneBookkeeping.ModelName` | Framework/Source/Graphics/Scene/Editor/SceneEditor.cpp:1159-1167 | the model name contains no path separator |
| `SceneBookkeeping.ModelNameOfPath` | Framework/Source/Graphics/Scene/Editor/SceneEditor.cpp:1159-1167 | the model name of dir/base.ext is base |
| `SceneBookkeeping.PathDropdownList` | Framework/Source/Graphics/Scene/Editor/SceneEditor.cpp:69-88 | the list has "None"/kNoPath first exactly when asked for, then each path in scene order under its name and index; kNoPath appears only as that first entry |
| `SceneBookkeeping.PathEntries` | Framework/Source/Graphics/Scene/Editor/SceneEditor.cpp:536-543 | one path's entries: its attached objects, each sent to it |
| `SceneBookkeeping.AttachmentMapEntries` | Framework/Source/Graphics/Scene/Editor/SceneEditor.cpp:536-543 | with disjoint attachments, each entry built from the first n paths names a path that holds the object, and each attached object has its entry |
| `SceneBookkeeping.AttachmentMapConsistent` | Framework/Source/Graphics/Scene/Editor/SceneEditor.cpp:536-543 | for distinct paths with disjoint attachments, the start-up map sends an object to a path exactly when it is attached to it |
| `SceneBookkeeping.BuildAttachmentMap` | Framework/Source/Graphics/Scene/Editor/SceneEditor.cpp:536-543 | the start-up loop builds the map from every path's attachments |
| `SceneBookkeeping.ConsistentFromEntries` | Framework/Source/Graphics/Scene/Editor/SceneEditor.cpp:536-543 | a map whose entries are exactly the attachments of distinct paths agrees with them |
| `SceneBookkeeping.DetachKeepsConsistent` | Framework/Source/Graphics/Scene/Editor/SceneEditor.cpp:1462-1465 | detaching an object and erasing its entry keeps the map consistent and leaves it on no path |
| `SceneBookkeeping.AttachKeepsConsistent` | Framework/Source/Graphics/Scene/Editor/SceneEditor.cpp:1475-1480 | attaching an object that is on no path and adding its entry keeps the map consistent |
| `SceneBookkeeping.AddPathKeepsConsistent` | Framework/Source/Graphics/Scene/Editor/SceneEditor.cpp:1299-1310 | a new empty path keeps the map consistent |
| `SceneBookkeeping.Detach` | Framework/Source/Graphics/Scene/Editor/SceneEditor.cpp:1462-1465 | the object leaves its path and the map; the other entries are kept, and every path keeps its identity and its name; consistency holds |
| `SceneBookkeeping.Attach` | Framework/Source/Graphics/Scene/Editor/SceneEditor.cpp:1475-1480 | the object joins path i and the map sends it there; the other entries are kept, and every path keeps its identity and its name; consistency holds |
| `SceneBookkeeping.Reattach` | Framework/Source/Graphics/Scene/Editor/SceneEditor.cpp:1460-1482 | after a new dropdown choice the object is on the chosen path and the map says so, or on none for kNoPath; every other object's entry is kept, and every path keeps its identity and its name; consistency holds |
| `SceneBookkeeping.DeletePathKeepsConsistent` | Framework/Source/Graphics/Scene/Editor/SceneEditor.cpp:1322-1328 | erasing a path's attached objects from the map and deleting the path keeps the map consistent |
| `SceneBookkeeping.DeleteSelectedModel` | Framework/Source/Graphics/Scene/Editor/SceneEditor.cpp:1180-1188 | the selected model and its rotations leave the tables; the selection resets to 0; the tables stay valid |
| `SceneBookkeeping.CancelStillDeletesOnlyInstance` | Framework/Source/Graphics/Scene/Editor/SceneEditor.cpp:1231-1244 | as written, cancelling the prompt for a model's only instance still deletes it, leaving a model with no instance |
| `SceneBookkeeping.DeleteInstance` | Framework/Source/Graphics/Scene/Editor/SceneEditor.cpp:1227-1251 | corrected: cancel changes nothing; Ok deletes the model; otherwise only the selected instance and its rotation go and the instance selection resets to 0; the tables stay valid |
| `SceneBookkeeping.DeleteInstanceDiffersOnlyOnCancel` | Framework/Source/Graphics/Scene/Editor/SceneEditor.cpp:1231-1244 | the code as written and the corrected one differ exactly when the user cancels removing a model's only instance |
| `SceneBookkeeping.AddInstance` | Framework/Source/Graphics/Scene/Editor/SceneEditor.cpp:1201-1220 | the new instance and its rotation are appended to the selected model only, at the index that becomes selected; the tables stay valid |
| `SceneBookkeeping.DecimalString` | Framework/Source/Graphics/Scene/Editor/SceneEditor.cpp:1304 | std::to_string of a natural number: non-empty decimal digits with no leading zero |
| `SceneBookkeeping.DecimalStringValue` | Framework/Source/Graphics/Scene/Editor/SceneEditor.cpp:1304 | the digits std::to_string writes read back as the number |
| `SceneBookkeeping.DecimalStringInjective` | Framework/Source/Graphics/Scene/Editor/SceneEditor.cpp:1304 | distinct numbers have distinct decimal strings |
| `SceneBookkeeping.InstanceNameAsWritten` | Framework/Source/Graphics/Scene/Editor/SceneEditor.cpp:1212 | as written: the name is the literal "Instance " with its first n characters skipped |
| `SceneBookkeeping.SecondInstanceNameLosesNumber` | Framework/Source/Graphics/Scene/Editor/SceneEditor.cpp:1212 | the second instance is named "nstance ", not "Instance 1" |
| `SceneBookkeeping.InstanceName` | Framework/Source/Graphics/Scene/Editor/SceneEditor.cpp:1212 | corrected: the name starts with "Instance " and carries a number |
| `SceneBookkeeping.InstanceNamesDistinct` | Framework/Source/Graphics/Scene/Editor/SceneEditor.cpp:1212 | instances added at different indices get different names |
| `SceneBookkeeping.AppendModel` | Framework/Source/Graphics/Scene/Editor/SceneEditor.cpp:1167-1174 | a new model with one instance and one rotation entry is appended and selected at instance 0; the tables stay valid |
| `SceneBookkeeping.ModelIndexOf` | Framework/Source/Graphics/Scene/Editor/SceneEditor.cpp:823-826 | the first model with the asset, or the count when none has it |
| `SceneEditing.FindEditorModelInstanceID` | Framework/Source/Graphics/Scene/Editor/SceneEditor.cpp:1132-1143 | the first marker index that is the instance, or (uint32_t)-1 exactly when no marker is |
| `SceneEditing.InstancePosition` | Framework/Source/Graphics/Scene/Editor/SceneEditor.cpp:821-842 | the position found is the current one, or one whose model has the instance's asset and holds the instance |
| `SceneEditing.AddedInstanceFound` | Framework/Source/Graphics/Scene/Editor/SceneEditor.cpp:1207-1215 | with a fresh ID and no earlier model sharing the selected model's asset, select finds the added instance at index count, the value addModelInstance sets beforehand |
| `SceneEditing.FindModelInstance` | Framework/Source/Graphics/Scene/Editor/SceneEditor.cpp:821-842 | the nested search returns the position of the instance within the first model with its asset, or the current selection |
| `SceneEditing.FindPathID` | Framework/Source/Graphics/Scene/Editor/SceneEditor.cpp:1444-1453 | kNoPath exactly when no path is the one sought; otherwise the LAST index of that path |
| `SceneEditing.EraseAttached` | Framework/Source/Graphics/Scene/Editor/SceneEditor.cpp:1323-1326 | the map loses exactly the entries of the attached objects |
| `SceneEditing.SceneEditor.constructor` | Framework/Source/Graphics/Scene/Editor/SceneEditor.cpp:460-546 | the editor starts valid, for a scene with or without cameras: the lights, paths, models, instances, cameras, markers, marker assets and gizmo set are the ones it is given; the light-ID maps are built, the rotation table is read and the attachment map is built from the paths; nothing is selected, dragged or dirty, no path editor is open, the logs are empty and the remaining fields hold their initial values |
| `SceneEditing.SceneEditor.RebuildLightIDMap` | Framework/Source/Graphics/Scene/Editor/SceneEditor.cpp:657-675 | afterwards the two maps are the light-ID maps of the scene's lights |
| `SceneEditing.SceneEditor.SetActiveGizmo` | Framework/Source/Graphics/Scene/Editor/SceneEditor.cpp:1110-1130 | the type becomes active; when its gizmo exists, the old active gizmo is hidden and the new one shown or hidden as asked; otherwise visibility is unchanged |
| `SceneEditing.SceneEditor.Deselect` | Framework/Source/Graphics/Scene/Editor/SceneEditor.cpp:1098-1108 | the selection is empty and the active gizmo hidden; the active type stays |
| `SceneEditing.SceneEditor.Select` | Framework/Source/Graphics/Scene/Editor/SceneEditor.cpp:1040-1096 | an instance already selected changes nothing; otherwise it becomes the whole selection, the active gizmo is shown, the category is decided by its asset, and only that category's target moves: the active camera, the selected light or the requested keyframe follow the marker, the model selection follows the instance's position |
| `SceneEditing.SceneEditor.SelectOnly` | Framework/Source/Graphics/Scene/Editor/SceneEditor.cpp:1048-1058 | the selection is exactly the instance and the active gizmo is shown |
| `SceneEditing.SceneEditor.SelectTarget` | Framework/Source/Graphics/Scene/Editor/SceneEditor.cpp:1060-1095 | camera, light, keyframe or model according to the asset: that category's target follows the marker or the instance's position; the other categories' targets are unchanged |
| `SceneEditing.SceneEditor.SelectCamera` | Framework/Source/Graphics/Scene/Editor/SceneEditor.cpp:1060-1068 | a camera marker makes its camera active; an unknown marker keeps the active camera |
| `SceneEditing.SceneEditor.SelectLight` | Framework/Source/Graphics/Scene/Editor/SceneEditor.cpp:1070-1078 | a light marker selects the point light with its editor ID, which is a point light in range |
| `SceneEditing.SceneEditor.SelectKeyframe` | Framework/Source/Graphics/Scene/Editor/SceneEditor.cpp:1080-1089 | a keyframe marker's index is handed to the path editor's setActiveFrame; an unknown marker hands nothing |
| `SceneEditing.SceneEditor.SetActiveModelInstance` | Framework/Source/Graphics/Scene/Editor/SceneEditor.cpp:1091-1095 | the category becomes Model and the selection moves to the instance's position when it is found |
| `SceneEditing.SceneEditor.ApplyGizmoTransform` | Framework/Source/Graphics/Scene/Editor/SceneEditor.cpp:677-728 | the delta reaches the selected model, the active camera, a point light or (unless scaling) the active keyframe; a rotation of a model instance is recorded in the table; the scene is dirty |
| `SceneEditing.SceneEditor.OnMouseEvent` | Framework/Source/Graphics/Scene/Editor/SceneEditor.cpp:730-805 | presses and releases tick the hold timer; a press starts a drag only when the gizmo takes the pick; a move applies the gizmo only while dragging; a release ends a drag, and a quick release without a drag selects the editor pick, else the scene pick, else nothing |
| `SceneEditing.SceneEditor.PressLeftButton` | Framework/Source/Graphics/Scene/Editor/SceneEditor.cpp:744-760 | the hold timer ticks and a drag starts when none is in progress and the gizmo takes the editor pick |
| `SceneEditing.SceneEditor.ReleaseLeftButton` | Framework/Source/Graphics/Scene/Editor/SceneEditor.cpp:771-794 | the hold timer ticks and the drag ends; a release within ClickTime with no drag selects by pick, otherwise the selection is unchanged |
| `SceneEditing.SceneEditor.SelectPick` | Framework/Source/Graphics/Scene/Editor/SceneEditor.cpp:781-792 | the selection becomes the editor pick, else the scene pick, else empty |
| `SceneEditing.SceneEditor.ClickSelect` | Framework/Source/Graphics/Scene/Editor/SceneEditor.cpp:1040-1058 | whether or not it was already selected, afterwards exactly the instance is selected |
| `SceneBookkeeping.SingletonSet` | Framework/Source/Graphics/Scene/Editor/SceneEditor.cpp:1040-1058 | proof step for ClickSelect: a selection of at most one instance that holds x is exactly x |
| `SceneEditing.SceneEditor.SelectPath` | Framework/Source/Graphics/Scene/Editor/SceneEditor.cpp:166-183 | with no path editor open, a new dropdown choice becomes the selected path and marks the scene dirty; otherwise nothing changes |
| `SceneEditing.SceneEditor.AddPath` | Framework/Source/Graphics/Scene/Editor/SceneEditor.cpp:1299-1310 | with no path editor open, an empty path named "Path <count>" is appended, selected and opened, and the scene is dirty; otherwise nothing changes |
| `SceneEditing.SceneEditor.DeletePath` | Framework/Source/Graphics/Scene/Editor/SceneEditor.cpp:1312-1337 | with no path editor open, the selected path and its attached objects' entries go; the selection stays, moves to the new last path, or becomes kNoPath when none is left |
| `SceneEditing.SceneEditor.SetObjectPath` | Framework/Source/Graphics/Scene/Editor/SceneEditor.cpp:1431-1483 | a new choice moves the object to the chosen path (or to none for kNoPath) in both the paths and the map; other objects' entries are kept, and every path keeps its identity and its name |
| `SceneEditing.SceneEditor.AddPointLight` | Framework/Source/Graphics/Scene/Editor/SceneEditor.cpp:302-330 | a point light and its marker are appended, the maps are rebuilt and the scene is dirty; the marker becomes the whole selection; unless it was already selected, the active gizmo is shown, the category becomes Light and the selected light is the one the marker stands for, which is the new light when the marker is new; the active camera, the keyframe requests and the model selection are kept; the invariant is kept |
| `SceneEditing.SceneEditor.AppendPointLight` | Framework/Source/Graphics/Scene/Editor/SceneEditor.cpp:314-318 | the new light is selected and the rebuilt scene-to-editor map sends it to the last marker |
| `SceneEditing.SceneEditor.SelectLightMarker` | Framework/Source/Graphics/Scene/Editor/SceneEditor.cpp:1040-1078 | select of a light marker: it becomes the whole selection; unless it was already selected, the active gizmo is shown, the category becomes Light and the point light the marker stands for is the selected light; the other categories' targets and the scene are kept |
| `SceneEditing.SceneEditor.AddDirectionalLight` | Framework/Source/Graphics/Scene/Editor/SceneEditor.cpp:332-341 | the light is appended and the scene is dirty; markers and maps stay valid unchanged |
| `SceneEditing.SceneEditor.DeleteLight` | Framework/Source/Graphics/Scene/Editor/SceneEditor.cpp:961-978 | corrected: confirmed, the light leaves the scene, only a point light loses its marker and the maps are rebuilt; while a light is selected, deleting it clears the selection and hides the active gizmo, and deleting another keeps the selected light under its new index, in range when it was; declined, nothing changes |
| `SceneEditing.SceneEditor.RemoveLight` | Framework/Source/Graphics/Scene/Editor/SceneEditor.cpp:965-976 | the light leaves the scene, the corrected marker removal is applied and the maps are rebuilt for the new lights |
| `SceneEditing.SceneEditor.AddCamera` | Framework/Source/Graphics/Scene/Editor/SceneEditor.cpp:1253-1279 | a camera and its marker are appended, also to a scene without cameras, and the scene is dirty; the marker becomes the whole selection; unless it was already selected, the active gizmo is shown, the category becomes Camera and the active camera is the one the marker stands for, which is the new camera when the marker is new; otherwise the new camera stays active; the selected light, the keyframe requests and the model selection are kept |
| `SceneEditing.SceneEditor.AppendCamera` | Framework/Source/Graphics/Scene/Editor/SceneEditor.cpp:1262-1266 | the camera is appended and becomes the active one; its marker is appended |
| `SceneEditing.SceneEditor.SelectCameraMarker` | Framework/Source/Graphics/Scene/Editor/SceneEditor.cpp:1040-1068 | select of a camera marker: it becomes the whole selection; unless it was already selected, the active gizmo is shown, the category becomes Camera and the camera the marker stands for is active; the other categories' targets and the cameras are kept |
| `SceneEditing.SceneEditor.DeleteCamera` | Framework/Source/Graphics/Scene/Editor/SceneEditor.cpp:1281-1297 | with a single camera nothing changes; otherwise one camera and the marker at the new active index go, the marker then at that index becomes the whole selection and the scene is dirty; unless that marker was already selected, the active gizmo is shown, the category becomes Camera and the camera the marker stands for is active; the selected light, the keyframe requests and the model selection are kept |
| `SceneEditing.SceneEditor.RemoveCamera` | Framework/Source/Graphics/Scene/Editor/SceneEditor.cpp:1291-1292 | one camera and the marker at the new active index go; the new index is active |
| `SceneEditing.SceneEditor.AddModel` | Framework/Source/Graphics/Scene/Editor/SceneEditor.cpp:1145-1178 | a file that loads becomes a model named after the file, with one instance, and is selected; a load failure returns before marking the scene dirty; a cancelled dialog marks it dirty |
| `SceneEditing.SceneEditor.DeleteModel` | Framework/Source/Graphics/Scene/Editor/SceneEditor.cpp:1180-1188 | the tables lose the selected model; the selection is cleared, the active gizmo hidden and the scene is dirty |
| `SceneEditing.SceneEditor.RemoveModel` | Framework/Source/Graphics/Scene/Editor/SceneEditor.cpp:1190-1199 | the button deletes the selected model, clears the selection and hides the active gizmo only while the scene has a model; otherwise nothing changes |
| `SceneEditing.SceneEditor.AddModelInstance` | Framework/Source/Graphics/Scene/Editor/SceneEditor.cpp:1201-1220 | corrected: the instance and its rotation are appended to the selected model and the instance is named "Instance <index>"; it becomes the whole selection and the scene is dirty; unless it was already selected, the active gizmo is shown and the category and its target are what select leaves, so for a model asset the selected model and instance are where select's search finds the new instance, starting from the selected model and the old instance count |
| `SceneEditing.SceneEditor.DeleteModelInstance` | Framework/Source/Graphics/Scene/Editor/SceneEditor.cpp:1227-1251 | the tables change as the corrected deletion says; when something was deleted, the selection is cleared, the active gizmo hidden and the scene is dirty; when the only instance's deletion is declined, the dirty flag, the selection and the gizmos are as they were |

## Left out

- **GUI widgets.**
  - Each scene-editor method models what happens after its button fires. A
    button that does not fire changes nothing.
  - The path editor's methods keep the button's result as a `buttonFired` parameter.
  - Labels, groups, tooltips and layout are not modelled.
- **Input, output and rendering.** These are not modelled:
  - the render passes, shaders, vertex buffers and VAOs;
  - the pickers' rendering;
  - msgBox and the file dialogs, whose results are parameters;
  - the hold timer's clock, whose reading is the `now` parameter;
  - logging, and scene file saving and loading.
- **Gizmos.** Their geometry and the deltas they compute are left out. The
  rotation after a drag step is a parameter, and only the log of transformed
  objects and the rotation table are kept.
- **The scene and editor-scene containers.** Scene.cpp, Scene.h and ObjectPath
  are not part of this model:
  - The scene's lights, paths, models, instances and cameras are held as the
    values the editor reads.
  - `Scene::kNoPath` is taken to be `(uint32_t)-1`.
  - `Scene::deleteCamera`'s choice of the next active camera is the
    `activeAfter` parameter.
  - `Model::createFromFile`'s success is the `loaded` parameter.
- **ObjectPaths.** It is a stand-in for ObjectPath, whose code is not part of
  this model. ObjectPath is described as keeping its keyframes sorted by time,
  with addKeyFrame and setFrameTime returning the index at which the frame lands.
  The stand-in does exactly that. It places a frame after any frames of equal
  time; that tie rule is a choice made here.
- `PathEditing.PathEditor.AddFrame`: the keyframe sequence it promises is
  `Insert` of the stand-in, so the place of the new frame rests on the assumed
  time ordering above. What holds whatever the ordering is the rest of the
  contract: the returned index is active and holds the new frame, and the
  callbacks fire in order.
- `PathEditing.PathEditor.AddFrame`: requires a keyframe when the button fires.
  The button is shown even for a path without keyframes, and pressing it there
  reads `getKeyFrame(mActiveFrame)` on an empty list (PathEditor.cpp:162). What
  that read does depends on ObjectPath, which is not part of this model, so
  that case is not modelled.
- `PathEditing.PathEditor.UpdateFrame`: the keyframe sequence it promises is
  `Insert` of the stand-in after removing the active frame. As with AddFrame,
  the new position rests on the assumed time ordering. The returned index
  holding the re-timed frame does not depend on it.
- `SceneEditing.SceneEditor.DeletePath`: requires a path while the path editor
  is closed. "Delete Path" is shown even when the scene has no path, and
  pressing it then calls `getPath(mSelectedPath)` on an empty list
  (SceneEditor.cpp:1320-1322). That read goes into Scene, which is not part of
  this model, so that case is not modelled.
- `SceneEditing.SceneEditor.OnMouseEvent`: requires, for a drag step, that a
  selected light index is in range (`GizmoTargetInRange`, which
  `ApplyGizmoTransform` requires too). The source reaches the excluded state: a
  drag after the Remove button deleted the selected light reads `getLight` past
  the end (SceneEditor.cpp:702). That is a row under Findings. With the corrected
  `DeleteLight`, the state arises only once the selected light has been deleted,
  the selection cleared and the gizmo hidden. Whether a hidden gizmo can still
  begin a drag depends on Gizmo, which is not part of this model, so the case
  stays excluded.
- `SceneEditing.SceneEditor.ClickSelect`: states the selection it leaves. The
  category, the targets and the gizmos are stated by `Select`, which it calls,
  and are not restated, to keep the callers' proofs small.
- `SceneEditing.SceneEditor.SelectPick`: states the selection only, for the same
  reason as ClickSelect.
- `SceneEditing.SceneEditor.ReleaseLeftButton`: states the hold timer, the drag
  flag and the selection. A click's category, targets and gizmos are as
  `Select` or `Deselect` state them, and are not restated.
- `SceneEditing.SceneEditor.OnMouseEvent`: states the hold timer, the drag flag,
  the dirty flag, the transform log when nothing moves, and the selection. It
  does not restate what a click selects beyond the selection itself (see
  ReleaseLeftButton), nor the rotation table and transform log after a drag
  step, which `ApplyGizmoTransform` states.
- **Marker model IDs.** The mEditorLightModelID, mEditorCameraModelID and
  mEditorKeyframeModelID bookkeeping is not modelled. The markers of each kind
  are one sequence, and the marker models' assets are constants.
- **setObjectPath's move.** The call that resets a detached model instance's
  transform (its "#HACK") is not modelled.
- **startPathEditor.** Opening the path editor is modelled only as the
  `pathEditorOpen` flag. The editor objects it creates and the keyframe markers
  it adds are not modelled.
- **DebugDrawer geometry.** `DebugDrawer::addPath`, `buildQuad` and
  `createQuadForFrame` compute vector geometry over floats and are not modelled.
  The drawer's list discipline is modelled through addLine and addQuad.
- **Other files.** MaterialEditor.cpp, MaterialEditorSample.cpp, Sample.h and
  MultiPassPostProcess.cpp are not part of this model.
- **Integers.** They are unbounded. uint32_t behaviour is modelled only where
  it decides an outcome (see the introduction); indices are otherwise assumed
  to stay below 2^32.
- `SceneEditing.SceneEditor.DeleteCamera`: requires a camera. In a scene
  without cameras the "Remove Camera" button passes the single-camera check and
  asks Scene to delete the active camera of an empty list (SceneEditor.cpp:1285-1291).
  Scene is not part of this model, so that case is not modelled.
- **Camera contents.** A camera is counted, not stored. The copy of the active
  camera that addCamera makes, and its name, are not modelled
  (SceneEditor.cpp:1257-1260). In a scene without cameras that copy reads
  `Scene::getActiveCamera`, which is not part of this model.
- **Floating point.** `ClickTime` is the real number 0.2, where the source
  compares the timer's elapsed time with the float 0.2f. Vector positions and
  rotations are stored and compared, never computed.

## Findings

| source | as written | input that shows it | evidently intended | confidence | as-written member | corrected member |
|---|---|---|---|---|---|---|
| Framework/Source/Graphics/Scene/Editor/SceneEditor.cpp:1231-1244 | when a model's only instance is removed and the user answers Cancel, control falls through and the instance is deleted anyway | one model with one instance; Remove Instance; Cancel | Cancel leaves the scene unchanged | high, not executed | `SceneBookkeeping.CancelStillDeletesOnlyInstance` | `SceneBookkeeping.DeleteInstance` |
| Framework/Source/Graphics/Scene/Editor/SceneEditor.cpp:965-970 | the marker removed is `mLightIDSceneToEditor[i]` whatever the kind of light i; for a light that is not a point light, operator[] inserts and yields 0 | lights [point, directional]; remove light 1 | only a point light's marker is removed | high, not executed | `SceneBookkeeping.DeleteOtherLightLosesPointLightMarker` | `SceneBookkeeping.DeleteLightMarkers` |
| Framework/Source/Graphics/Scene/Editor/SceneEditor.cpp:1212 | `"Instance " + mSelectedModelInstance` adds an integer to a character pointer, skipping characters of the literal | a model with one instance; Add Instance gives the name "nstance " | the name "Instance 1" | high, not executed | `SceneBookkeeping.SecondInstanceNameLosesNumber` | `SceneBookkeeping.InstanceNamesDistinct` |
| Framework/Source/Graphics/Scene/Editor/SceneEditor.cpp:961-978 | the Remove button deletes light i but leaves `mSelectedLight` and the selection as they were, so the gizmo stays on a light index that is now past the end or names another light | point lights 0 and 1 with marker 11 selected (so `mSelectedLight` is 1); remove light 1, then drag the gizmo: `getLight(1)` reads past the end of one light | the selection follows the light it showed, and is cleared when that light is deleted | medium, not executed | `SceneBookkeeping.DeleteLightLeavesSelectedLightStale` | `SceneBookkeeping.SelectedLightFollowsMarker` |
