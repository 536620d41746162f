# Skeleton editor, modelled in Dafny

A model of the core of an openFrameworks skeleton editor. The editor keeps a scene of
objects that form a tree: a ground plane, joints, and other primitives. Each object has a
local transform (position, Euler rotation, scale, pivot), a parent pointer and a child
list. The user creates joints at the mouse point under the selected joint, deletes joints,
picks the nearest object under the mouse, and drags it to move or rotate it. A model can be
bound to each joint. The user records start and end keyframes, plays them back with sine
easing, and saves the skeleton to or loads it from a text file of
`create -joint … -rotate <…> -translate <…> -parent …;` lines.

The modules:

- `Common`: Option, Distinct, Increasing and IndexOf.
- `Geometry`: vectors and rays.
  - Transforms are symbolic. A matrix is the list of its factors, multiplied by
    concatenation.
  - What a rotation does to a point is a parameter (`Rotator`).
- `Primitives`: `SceneObject` and its constructors, the world matrix along the parent
  chain, and the intersect tests.
  - The object heap is the class `Arena`. A pointer is an index into `Arena.nodes`.
- `Keyframes`: the class `Keyframe`, that is, recording poses and staged, eased playback.
- `SkeletonText`: text-level parts of the file format.
  - Words, lines, joint names and the two-decimal rounding.
  - One line of the file, and reading it back.
- `Hierarchy`: the link surgery of removeJoint.
- `SceneFile`: the whole saved file as a function of the heap, and the heap that loading a
  file builds.
- `Selection`: picking the nearest object, the drag rule, and the file name of a dropped
  model.
- `Editor`: the class `App` (ofApp), with its fields and the key and mouse operations.

Values the program gets from the camera, the model loader or the C++ library are
parameters:

- the pick ray, the camera position, the point on the drag plane and the easing
  coefficient;
- whether the model file exists and whether a model file loads;
- number formatting (`fmt`) and parsing (`stof`), and the ray/plane, ray/box and
  ray/sphere tests (`Library`).

### Program behaviour worth knowing

- **Rounding.** The rounding in saveToFile is `(int)(x * 100 + .5) / 100`, and the cast
  truncates toward zero. Below -0.005 it rounds up, not to the nearest hundredth.
  `Round2Error` bounds the error.
- **Joint counter.** loadFromFile reads only the last character of each joint name when it
  syncs the counter. After joint10 the next new joint can repeat a name.
- **removeJoint.** It always erases the grandparent's last original child entry, not the
  deleted joint's entry (see `EraseIndex` and `DeletingFirstOfTwoChildrenDropsTheSecond`).
  When the deleted joint was not that last child:
  - it stays listed in its parent's child list;
  - that last child stays attached by its parent pointer but drops out of the list.

## Model

| member | source | states |
|---|---|---|
| Geometry.EvalPoint | src/Primitives.h:26-28 | the point lies on the ray: its offset from the origin is t times the direction, and t = 0 gives the origin |
| Geometry.ApplyMul | src/Primitives.h:86-88 | applying a product of transforms to a point applies the right-hand factor first |
| Primitives.ConstructorDefaults | src/Primitives.h:107-231 | every constructor leaves the object unlinked. The plane is the only object that is not selectable. A joint is named "joint" and sits at its position with zero rotation and unit scale. A mesh keeps the default object name and carries its file name separately |
| Primitives.LocalOfUnrotated | src/Primitives.h:53-70 | the local matrix of an object with zero rotation, zero pivot and unit scale moves a point by the object's position |
| Primitives.LocalMatrix | src/Primitives.h:53-70 | the local matrix is five factors, leftmost first: translate by the position, translate by +pivot, rotate, translate by -pivot, scale. So the scale acts first and the rotation turns about the pivot |
| Primitives.Lineage | src/Primitives.h:72-82 | the ancestors of a node, from a root down to the node, each the parent of the next |
| Primitives.WorldIsLineageProduct | src/Primitives.h:72-82 | the recursive getMatrix equals the product of the local matrices along the lineage, root first |
| Primitives.ChildWorldPosition | src/Primitives.h:86-88 | a child's world position is its local origin carried through its parent's world matrix |
| Primitives.WorldMatrixOfSamePlacement | src/Primitives.h:72-82 | a world matrix depends only on the placement of the node and of the nodes below it in the heap, so appending a node leaves every old world position unchanged |
| Primitives.TranslationOnly | src/Primitives.h:72-94 | when a node and its ancestors are unrotated with zero pivot and unit scale, its world matrix is a pure translation by its world position |
| Primitives.CubeBox | src/Primitives.cpp:196-214 | the cube is tested against a box centred on its origin whose sides are its width, height and depth |
| Primitives.ConeBox | src/Primitives.cpp:53-72 | the cone is tested against the box from (-radius, -radius, 0) to (radius, radius, height) |
| Primitives.PlaneIntersect | src/Primitives.cpp:220-234 | no hit when the ray misses the infinite plane. Otherwise the hit point is the ray point at the returned distance, the normal is the plane's normal, and there is a hit exactly when the point is strictly inside the width × height rectangle |
| Primitives.RectangleIsOpen | src/Primitives.cpp:228-230 | a point on the rectangle's border is not inside, and only a rectangle with positive width and height has inside points |
| Primitives.Intersect | src/Primitives.cpp:179-216 | a mesh never reports a hit. A cube or cone hit gives neither point nor normal. A sphere or joint hit gives both |
| Primitives.SphereTestsOriginWithRadius | src/Primitives.cpp:179-188 | a sphere or joint is tested in object space, against a sphere at the origin with the object's radius, along the ray carried into object space |
| Primitives.PlaneTestsWorldRay | src/Primitives.cpp:220-234 | a plane is tested on the world ray itself, not carried into object space, and gives exactly PlaneIntersect's result |
| Primitives.CubeTestsItsBox | src/Primitives.cpp:196-214 | a cube is tested along the ray carried into object space, against its centred box with the range -1000 to 1000. It reports only whether the box is hit |
| Primitives.ConeTestsItsBox | src/Primitives.cpp:53-72 | a cone is tested along the ray carried into object space, against its bounding box with the range -1000 to 1000. It reports only whether the box is hit |
| Primitives.Linked | src/Primitives.h:102-105 | addChild appends the child to the parent's list and makes the parent the child's parent. Nothing else changes, and the heap stays ordered when the parent is older |
| Primitives.Arena.Allocate | src/ofApp.cpp:328 | `new` appends the object to the heap and returns its index |
| Primitives.Arena.AddChild | src/Primitives.h:102-105 | the heap becomes Linked(old heap, parent, child) |
| Keyframes.Keyframe.constructor | src/ofApp.h:25-44 | duration 1, frame 0 and every track empty |
| Keyframes.Keyframe.GetIndex | src/ofApp.h:49-61 | -1 exactly when the object is not tracked. Otherwise the last position that holds it |
| Keyframes.Keyframe.SetStartValues | src/ofApp.h:72-90 | an untracked object is appended with its current pose as both its start and its end pose. For a tracked one only its start pose changes, and the tracked set stays duplicate-free |
| Keyframes.Keyframe.SetEndValues | src/ofApp.h:96-114 | the same, with only the end pose changing for a tracked object |
| Keyframes.Keyframe.SetTheStage | src/ofApp.h:119-147 | sets the duration and frame 0. Every tracked object is placed at its start pose (its end pose in reverse), and each step is the remaining distance over frameRate × duration frames. Untracked objects are unchanged |
| Keyframes.Keyframe.Stage | src/ofApp.h:127-146 | each tracked object is set to its from pose and gets the step (to - from) / (frameRate × duration). Untracked objects do not change |
| Keyframes.Keyframe.Playback | src/ofApp.h:154-164 | every tracked object moves by -step / 2 × c and nothing else changes. The frame count goes up by one, and the result is whether it is still below 2 × frameRate × duration |
| Keyframes.EasedClosedForm | src/ofApp.h:154-164 | after any sequence of frames, a pose has moved by its step times minus half the sum of the easing coefficients |
| Keyframes.PlaybackReachesTarget | src/ofApp.h:119-164 | a staged playback whose coefficients sum to -2 × frames lands exactly on the target pose. The program's cosine coefficients sum to that only when twice frames = frameRate × duration is a whole number |
| SkeletonText.Words | src/ofApp.cpp:270-276 | the words of a line, as `ss >> word` splits them: each one non-empty and free of whitespace |
| SkeletonText.SplitWords | src/ofApp.cpp:270-276 | the splitting loop computes Words |
| SkeletonText.WordsOfJoin | src/ofApp.cpp:222-225 | splitting words joined by single spaces gives back the same words |
| SkeletonText.LinesOfJoin | src/ofApp.cpp:222-230 | splitting lines joined with newlines gives back the same lines |
| SkeletonText.LoadCount | src/ofApp.cpp:264-268 | the reading loop stops at the first empty line: every line before it is non-empty |
| SkeletonText.JointName | src/ofApp.cpp:328-329 | "joint" + the counter is a single word whose last character is the counter's last decimal digit |
| SkeletonText.LastDigitOfJointName | src/ofApp.cpp:308 | the digit the loader reads back from a joint name is the counter modulo 10 |
| SkeletonText.CounterAfterLoad | src/ofApp.cpp:308-315 | after loading, the counter is above its old value and above the last digit of every name read |
| SkeletonText.MaxLastDigit | src/ofApp.cpp:308 | the running max is at least the old counter and every last digit read, and it equals one of them |
| SkeletonText.CounterCollidesAfterTenJoints | src/ofApp.cpp:308-315 | loading joint0 … joint10 into a fresh session sets the counter to 10, so the next joint created is named joint10 again |
| SkeletonText.Round2Error | src/ofApp.cpp:212-221 | from -0.005 up, the rounding is to the nearest hundredth. Below that it lands 0.005 to 0.015 above the value |
| SkeletonText.Round2OfNegative | src/ofApp.cpp:214 | -1.234 is saved as -1.22 |
| SkeletonText.NumbersCanReadBack | src/ofApp.cpp:213-220 | the number hypothesis of the round trip can be met: rounded values are whole hundredths, so a text that spells out the hundredths reads back exactly |
| SkeletonText.ParseWords | src/ofApp.cpp:279-292 | the record takes its name from word 2 and its parent name from word 12, less its last character |
| SkeletonText.ParseSaveLine | src/ofApp.cpp:222-292 | a saved line is readable, and it reads back as the name, the rounded rotation and position, and the parent's name |
| SkeletonText.SaveLineIsOneLine | src/ofApp.cpp:222-225 | a saved line is non-empty and contains no newline |
| Hierarchy.AdoptAll | src/ofApp.cpp:370-374 | every child of the deleted joint is appended to the grandparent and gets it as its parent. Nothing else changes, and order is kept |
| Hierarchy.OrphanAll | src/ofApp.cpp:386-392 | every child of the deleted root joint loses its parent, and nothing else changes |
| Hierarchy.EraseAt | src/ofApp.cpp:377-384 | vector::erase: the element goes and the later ones move down one place |
| Hierarchy.EraseIndex | src/ofApp.cpp:360-384 | in both branches the computed index is the position of the grandparent's last original child |
| Hierarchy.Detached | src/ofApp.cpp:362-393 | the links removeJoint leaves. With a parent, the parent's list is its original list less the last entry, plus the deleted joint's children, and those children point to it. Without one, the children become roots. Nothing else changes, and the heap stays ordered |
| Hierarchy.DetachedKeepsAllButLastChild | src/ofApp.cpp:377-384 | the deleted joint leaves its parent's list only when it was the last child there, and the last child's entry goes whichever child was deleted |
| Hierarchy.DeletingFirstOfTwoChildrenDropsTheSecond | src/ofApp.cpp:377-384 | with children a and b, deleting a leaves a listed and drops b from the list while b still points to the parent |
| Hierarchy.EraseKeepsIncreasing | src/ofApp.cpp:397 | erasing a scene entry keeps the scene in creation order and removes the deleted object |
| SceneFile.SavedFile | src/ofApp.cpp:180-234 | a file is written exactly when some object after the ground plane is a root |
| SceneFile.SavedSceneReadsBack | src/ofApp.cpp:180-318 | the saved file splits into one line per object after the ground plane, and the loader reads all of them. Each gives back the object's name, rounded pose and parent name |
| SceneFile.SavedLinesReadBack | src/ofApp.cpp:203-292 | each saved line is non-empty, holds no newline, and reads back as its object's name, rounded pose and parent name |
| SceneFile.SavedPrefixStep | src/ofApp.cpp:203-231 | writing one more object's line extends the text written so far by that line, followed by a newline unless it is the last object |
| SceneFile.SavedRecords | src/ofApp.cpp:180-318 | the loader reads one record per saved object, each the record saved for it. With distinct names saved, the records' names are distinct |
| SceneFile.LastNamed | src/ofApp.cpp:292-303 | the last earlier record with a given name, if any: later ones do not have it |
| SceneFile.ChildIndices | src/ofApp.cpp:292-303 | a loaded joint's children are exactly the later joints that name it as their parent, in file order |
| SceneFile.LoadedScene | src/ofApp.cpp:253-306 | the scene after loading is the new ground plane, then the joints in file order, in creation order |
| SceneFile.LinkedUnderMidway | src/ofApp.cpp:292-303 | the linking loop over the joints read so far yields the heap described by the records |
| SceneFile.LoadedLinksAgree | src/ofApp.cpp:292-303 | a loaded joint's parent is an earlier joint with the parent name on its line, and that parent lists it among its children |
| SceneFile.LoadedKeepsOrder | src/ofApp.cpp:241-318 | loading keeps the heap ordered: parents older than children, children newer than parents |
| SceneFile.LoadedSceneFits | src/ofApp.cpp:253-306 | after loading, the heap stays ordered, grows by the ground plane and one joint per record, and holds every scene entry |
| SceneFile.SaveThenLoad | src/ofApp.cpp:180-318 | saving then loading gives each saved joint back with its name, its rounded pose, and its parent's reloaded copy as parent. It requires the saved objects' names to be distinct single words ending in a digit (the ground plane's name is free), every parent itself saved, and the text of every rounded value to read back (NumbersReadBack). Child lists are not compared: loading rebuilds them from the parent names, while a saved child list can hold entries that removeJoint left stale |
| SceneFile.ReloadedAll | src/ofApp.cpp:284-305 | from the records of a saved scene, every loaded joint is its saved object with the rounded pose, and with the reloaded copy of its parent as parent |
| Selection.CandidatesExact | src/ofApp.cpp:594-603 | the hits are exactly the scene objects that are selectable and whose intersect reports a hit: every hit is one, and every one is a hit |
| Selection.FirstLeast | src/ofApp.cpp:608-619 | the winner is the first of the nearest candidates |
| Selection.FirstLeastUnique | src/ofApp.cpp:608-619 | only one position is the first nearest |
| Selection.Dragged | src/ofApp.cpp:526-541 | with x held, the rotation about x grows by 20 × the horizontal motion. Otherwise y, then z, does the same about its axis. With none held, the position moves by the motion. Nothing else changes |
| Selection.DragStepsCompose | src/ofApp.cpp:524-544 | two drag steps in a row with the same keys equal one step over the whole motion |
| Selection.TailLength | src/ofApp.cpp:681-692 | the base name (the suffix of this length) holds no backslash. It is preceded by a backslash unless it is the whole path |
| Selection.BasenameUnique | src/ofApp.cpp:681-692 | any suffix without a backslash that is the whole path or follows a backslash is the base name, so the backward scan's stopping point is the only one |
| Selection.BasenameOfFileInFolder | src/ofApp.cpp:681-692 | a file name dropped from any folder is known by that name |
| Editor.CreatedHeap | src/ofApp.cpp:324-343 | createJoint adds one new joint named after the counter, unrotated and without children. It stands at the clicked point, minus the selected joint's world position when one is selected. Its parent is the selected joint, which lists it and is otherwise unchanged. Nothing else changes, and the heap stays ordered |
| Editor.FreshJointMatrixIsIdentity | src/Primitives.h:92-94 | a fresh joint's own matrix leaves points in place, so setPosition stores its argument |
| Editor.CreatedJointLandsOnPoint | src/ofApp.cpp:330-339 | the new joint's world position is the clicked point when the selected joint and its ancestors are unrotated |
| Editor.App.constructor | src/ofApp.cpp:53 | the scene holds only the ground plane. Nothing is selected, no models, counter 0, no drag, no rotation mode, not playing |
| Editor.App.ObjSelected | src/ofApp.h:188 | true exactly when something is selected |
| Editor.App.CreateJoint | src/ofApp.cpp:324-343 | the heap becomes CreatedHeap. The new joint is appended to the scene, and the counter goes up by one |
| Editor.App.PlaceJoint | src/ofApp.cpp:328-340 | the new joint gets the next heap index, and the heap becomes CreatedHeap |
| Editor.App.Detach | src/ofApp.cpp:362-393 | the heap becomes Detached(old heap, selected) |
| Editor.App.DetachFromScene | src/ofApp.cpp:359-393 | the scan finds the selected object's first place after the ground plane (its only one, since the scene is increasing), returns that place, and leaves the heap as Detached of the object |
| Editor.App.AdoptChildren | src/ofApp.cpp:368-374 | every child of the deleted joint is added, in order, to the grandparent (AdoptAll). re ends as the child count, or -1 when there are no children |
| Editor.App.OrphanChildren | src/ofApp.cpp:386-392 | every child of a deleted root loses its parent (OrphanAll), and nothing else changes |
| Editor.App.RemoveJoint | src/ofApp.cpp:351-408 | nothing happens with nothing selected. Otherwise the links become Detached, the joint leaves the scene, and the selection, keyframes and models are cleared |
| Editor.App.DropTracksAndModels | src/ofApp.cpp:401-407 | every keyframe track and the models are emptied, which keeps the keyframes consistent |
| Editor.App.SaveToFile | src/ofApp.cpp:180-234 | the text written is SavedFile, or nothing without a root |
| Editor.App.RootExists | src/ofApp.cpp:183-197 | the root scan says whether some object after the ground plane is a root |
| Editor.App.SavedText | src/ofApp.cpp:203-231 | the loop writes the saved lines joined with newlines |
| Editor.App.LoadFromFile | src/ofApp.cpp:241-318 | with no file, nothing changes: not the editor, not the heap, not the keyframes. Otherwise the editor becomes what Reload states |
| Editor.App.Reload | src/ofApp.cpp:253-313 | a new ground plane and the joints of LoadedNodes are appended to the heap, and the scene is LoadedScene. The counter is CounterAfterLoad, and keyframes and models are cleared |
| Editor.App.ClearScene | src/ofApp.cpp:253-261 | a new ground plane is appended to the heap and is the whole scene. Keyframes and models are emptied |
| Editor.App.ReadJoints | src/ofApp.cpp:263-313 | the reading loop appends LoadedNodes to the heap, makes the scene LoadedScene, and leaves the counter at MaxLastDigit of the names read |
| Editor.App.ReadJoint | src/ofApp.cpp:268-312 | one pass of the reading loop loads one more record and raises the counter by its name's last digit |
| Editor.App.LoadJoint | src/ofApp.cpp:284-305 | one more loaded joint is placed on the heap and pushed onto the scene |
| Editor.App.LinkLoaded | src/ofApp.cpp:292-302 | linking the new joint under every scene joint with its parent's name gives the heap LoadedPrefix describes |
| Editor.App.BumpCounter | src/ofApp.cpp:308 | the counter becomes the running max over one more name |
| Editor.App.MousePressed | src/ofApp.cpp:573-628 | nothing while the camera takes the mouse. Otherwise the selection becomes the first nearest candidate, with a drag started at the drag point, or nothing when there is no candidate |
| Editor.App.SelectNearest | src/ofApp.cpp:608-627 | the selection is cleared, then becomes the first nearest hit with a drag started at the drag point. With no hit it stays empty |
| Editor.App.PickHits | src/ofApp.cpp:594-603 | the loop computes Candidates |
| Editor.App.Nearest | src/ofApp.cpp:608-619 | the scan with the running minimum starting at infinity finds FirstLeast |
| Editor.App.MouseDragged | src/ofApp.cpp:524-544 | with a selection and a drag, the selected object becomes Dragged and the point becomes the last drag point. Otherwise nothing changes |
| Editor.App.MouseReleased | src/ofApp.cpp:631-634 | the drag ends |
| Editor.App.RotateKey | src/ofApp.cpp:485-496 | x, y or z (either case) sets its rotation mode on a press and clears it on a release (keyReleased). Other keys and modes stay |
| Editor.App.DragEvent | src/ofApp.cpp:661-700 | with a joint selected that has no model yet and a file that loads, a mesh named after the file's base name is bound to it. Otherwise nothing changes, so a joint never gets two models |
| Editor.App.BindModel | src/ofApp.cpp:697-698 | the model is appended and bound to a joint that had none, so models and joints stay paired and no joint is bound twice |
| Editor.App.FileName | src/ofApp.cpp:681-692 | the backward scan for the last backslash yields Basename |
| Editor.App.RecordStart | src/ofApp.cpp:437-438 | with no selection, the keyframes do not change. An untracked selected object is appended with its current pose as both start and end pose. A tracked one has only its start pose replaced, and every other track keeps its poses |
| Editor.App.RecordEnd | src/ofApp.cpp:440-441 | with no selection, the keyframes do not change. An untracked selected object is appended with its current pose as both start and end pose. A tracked one has only its end pose replaced, and every other track keeps its poses |
| Editor.App.Play | src/ofApp.cpp:467-480 | while playing, neither the heap nor the keyframes change. Otherwise playing starts over half the slider's duration. Every tracked object is set to its start pose (its end pose in reverse) and gets the step towards the other pose over frameRate × duration frames. Untracked objects do not change |
| Editor.App.Update | src/ofApp.cpp:64-68 | while playing, one playback frame moves every tracked object by its eased step, untracked objects stay, and playing continues exactly while playback says so. Otherwise neither the heap nor the keyframes change |

## Left out

- Rendering, lights, materials, the GUI panel, fullscreen, hiding, and the camera keys and
  camera switching (c, f, h, F1-F3, ALT) are left out. They do not touch the scene.
  printFamily and printChannels (key i) only print.
- `mouseToDragPlane` and the camera ray are not modelled.
  - The point on the drag plane is a parameter.
  - When the ray misses the plane, the program leaves that point uninitialised. The model
    cannot express that in createJoint and mouseDragged.
- Model loading (ofxAssimpModelLoader) is reduced to a boolean parameter. The following
  only set mesh transforms for drawing and are left out:
  - the scale rule for engineerfriend.obj;
  - the per-frame mesh following in update (src/ofApp.cpp:70-84).
- `rotateToVector`, the Box/Ray classes of the box test, and `glm::intersectRay*` are
  library code. They come in through `Library`.
- Arithmetic is on exact reals, not 32-bit floats. cos, normalize, inverse and sqrt are
  abstracted. The easing coefficient is a parameter.
- File I/O is abstracted. The saved text is a value, and the loaded text comes in as its
  lines. `stof` and `stoi` exceptions on malformed text are not modelled:
  - LoadFromFile requires every line before the first empty one to have at least 13 words
    and a name ending in a digit;
  - `getNextLine`'s handling of '\r' is not modelled.
- Editor.App.RemoveJoint requires two things the code does not check:
  - The selection is a scene object other than the ground plane. The program's erase
    index would stay -1 otherwise, after a load leaves a stale selection.
  - A deleted joint's parent has a non-empty child list. Otherwise the computed index is
    -1. This holds in reachable states because a parent's list is never shorter than its
    live children, but the model does not prove that invariant.
- Editor.CreatedJointLandsOnPoint only holds for unrotated ancestors. createJoint subtracts
  the parent's world position and stores the result as a local offset, so with a rotated
  ancestor the joint does not land on the point. The model stores the same offset the code
  does.
- Editor.App.Nearest ranks by squared distance from the camera to the object's local
  `position` field, as the code measures it. This is not the world position. Squaring keeps
  the order of the lengths the code compares.
- Editor.App.Play requires a non-zero duration. The slider's range is 0.5 to 3.
- Editor.App.Update requires that a playback in progress was staged for every tracked
  object. Recording a keyframe during playback would make the program index past its step
  vectors.
- SceneFile.SaveThenLoad and the other round-trip lemmas assume that every rounded value's
  text reads back. saveToFile never sets the stream's precision, so operator<< writes six
  significant digits. A rounded value of 10000 or more then loses its hundredths, and
  12345.67 is written as "12345.7". Values that large are not covered.
- Keyframes.PlaybackReachesTarget: only covers coefficient sums of -2 × frames. The cosine
  coefficients reach that sum when 2 × frameRate × duration is a whole number. The duration
  slider is continuous (0.5 to 3), so for most durations the playback stops off the target
  pose, and the model does not bound by how much.
- Keyframe's frameNumber is a float in the program and a natural number here. It only ever
  counts frames up from 0.
