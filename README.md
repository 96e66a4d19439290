# d3-viewer core, modelled in Dafny

d3-viewer is a desktop and browser viewer for STL and 3MF models. A three.js
front end (`src/main.js`) runs inside a Tauri shell (`src-tauri/src/lib.rs`).
This project models the parts of the viewer that are logic, not rendering,
and proves properties about them:

- the measuring session: the pending first point, the id counter, the list of
  measurements and the scene objects drawn for them (`Measurements`, and the
  `Viewer.Session` class for the module-level state of `main.js`);
- the rotate gizmo's enabled, visible and attached flags, and the pointer
  handlers that decide between a click and a camera drag (`Viewer`);
- snapping a surface hit to the nearest vertex or edge point of its triangle
  (`Snap`);
- placing a loaded model: centring, grounding and wrapping it in a pivot
  (`Placement`);
- choosing the parser from the file name, the MIME type and the first bytes,
  and the name and MIME type given to a file read through the shell
  (`Formats`);
- turning a drag-and-drop into a file or path to load (`DropPaths`);
- the bounded in-app debug log (`DebugLog`);
- the Rust side: the extension test, the startup argument, the take-once
  pending slot and the greeting (`Startup`).

`Vectors` and `Text` hold the vector arithmetic and the JavaScript string
operations (`toLowerCase`, `trim`, `split`, `endsWith`, `includes`) that the
other modules use. `Options` is the option type.

Geometry is over `real`. Every distance is kept squared, so no square root is
needed. The measured distance between two points is stored squared, and the
click test `Math.hypot(dx, dy) > 12` is written as `dx^2 + dy^2 > 144`.

Where the code and its comment disagree, the model follows the code. In
`loadFromFile` the comment says "prefer extension, then MIME". The code sets
`isSTL` from the name or the MIME type, and STL wins over 3MF. So a `.3mf`
name sent with the MIME type `model/stl` is parsed as STL
(`Formats.StlWinsOverThreeMf`).

## Model

| member | source | states |
|---|---|---|
| Measurements.Cleared | src/main.js:624-642 | the state clearMeasurements leaves (no pending point, counter 1, no measurements, no scene objects) is consistent |
| Measurements.AddPoint | src/main.js:654-681 | a first point is stored and adds one object, keeping counter and list; a second point clears the pending slot, appends a measurement with id nextId and the squared distance between the pending point and p, bumps the counter by exactly 1 and adds three objects |
| Measurements.AddPointKeepsConsistent | src/main.js:654-681 | adding a point keeps the invariant: counter = list length + 1, objects = 4 per measurement + 1 if pending, each measurement's four objects (start marker, end marker, line, label) agree with its stored id and distance, the last object is the pending start marker |
| Measurements.CancelPending | src/main.js:683-700 | leaving measure mode clears the pending slot and keeps the counter and the measurements |
| Measurements.CancelPendingRemovesOnlyTheMarker | src/main.js:683-700 | the cancel keeps the state consistent, removes exactly the pending start marker, and changes nothing when nothing was pending |
| Measurements.ClicksPairUp | src/main.js:654-681 | from a cleared state, n clicks give n/2 measurements with ids 1, 2, … whose distances are those of consecutive click pairs, and a pending point (the last click) exactly when n is odd |
| Measurements.IdsRunInOrder | src/main.js:654-681 | in a consistent state the ids in the list are 1..n in order and the counter is n + 1 |
| Measurements.ListOf | src/main.js:644-652 | the list shows rows exactly when there are measurements, and then exactly the measurements; "Pick second point..." exactly when there are none and a point is pending |
| Measurements.CommittedExtends | src/main.js:654-681 | appending objects and measurements leaves every committed measurement's four objects unchanged |
| Viewer.Session.constructor | src/main.js:180-186 | the start-up state: no model, not measuring, the measuring state cleared, the gizmo disabled, hidden and detached, orbit enabled |
| Viewer.Session.UpdateMeasurementsList | src/main.js:644-652 | the list view becomes `ListOf` of the measuring state and nothing else changes |
| Viewer.Session.AddMeasurementPoint | src/main.js:654-681 | called only while measuring (main.js:1096-1098); the measuring state becomes `AddPoint` of the old one, the session invariant is kept (a pending point only while measuring, the gizmo off while measuring), and gizmo, model, mode and pointer state are unchanged |
| Viewer.Session.ClearMeasurements | src/main.js:624-642 | the measuring state becomes `Cleared()`, the invariant is kept, and everything else is unchanged |
| Viewer.Session.SetRotateGizmoVisible | src/main.js:473-482 | enabling happens only outside measure mode (its one caller with true, main.js:1116, is past the measuring branch); controls enabled and helper visible equal the argument; attached exactly when enabling with a model loaded; the rest unchanged |
| Viewer.Session.SetMeasureMode | src/main.js:683-700 | the mode becomes the argument; entering turns the gizmo off and keeps the measurements; leaving applies `CancelPending` and keeps the gizmo; either way no point stays pending outside measure mode and the gizmo is off while measuring |
| Viewer.Session.ClearModel | src/main.js:366-375 | the gizmo is detached and off, the measurements are cleared and no model remains |
| Viewer.Session.LoadParsed | src/main.js:892-914 | the old model is cleared; the load succeeds exactly when the parser found meshes; on success the new model's world vertices are the root's vertices centred and grounded, measuring is off and the gizmo off; pointer state unchanged |
| Viewer.Session.InstallModel | src/main.js:909-910 | the pivot around the centred and grounded root becomes the model, with world vertices `Translate(local, CenteredPosition(local, position))` |
| Viewer.Session.DraggingChanged | src/main.js:188-197 | orbit is enabled exactly when the gizmo is not dragging; when a drag ends with a model, the model is re-grounded (`GroundedPosition`) and the measurements cleared; otherwise the measurements and the model's position are unchanged |
| Viewer.Session.GizmoMouseDown | src/main.js:198-200 | the press is marked as consumed by the gizmo; nothing else changes |
| Viewer.Session.PointerDown | src/main.js:1065-1068 | the press position is stored and the gizmo flag reset; the rest unchanged |
| Viewer.Session.PointerUp | src/main.js:1079-1121 | without a press or a model nothing changes; a move beyond 12 px or a gizmo drag changes neither measurements nor gizmo; in measure mode a hit adds the (snapped when asked) point and the gizmo is untouched; otherwise, unless the gizmo consumed the press, the gizmo is shown exactly when a mesh was hit |
| Viewer.Session.DocumentPointerDown | src/main.js:1123-1129 | a press outside the view with a model loaded turns the gizmo off; otherwise nothing changes |
| Viewer.TargetPoint | src/main.js:461-471 | without snapping the raw hit point; with snapping exactly `Snap.SnappedPoint` of the hit, which is the raw point without face data and otherwise one of the six candidates (the nearest one by `Snap.SnappedPointIsNearestCandidate`) |
| Snap.Clamp | src/main.js:417 | the result lies in [lo, hi], equals v inside the interval and the nearer end outside it |
| Snap.SegmentParam | src/main.js:417 | the projection parameter is clamped to [0, 1] |
| Snap.ClosestPointOnSegment | src/main.js:412-419 | `a` for a zero-length segment, otherwise `a + t (b - a)` with t the clamped projection parameter |
| Snap.ClosestPointBeforeStart | src/main.js:412-419 | a zero-length segment or a foot at or before `a` gives `a` |
| Snap.ClosestPointBeyondEnd | src/main.js:412-419 | a foot at or beyond `b` gives `b` |
| Snap.ClosestPointInside | src/main.js:412-419 | a foot inside the segment is returned unclamped |
| Snap.ClosestPointIsNearest | src/main.js:412-419 | no point of the segment is closer to p than the returned point |
| Snap.QuadraticMinimum | src/main.js:417 | the clamped vertex minimises the squared distance along the segment over [0, 1] |
| Snap.Candidates | src/main.js:433-440 | six candidates: the three vertices, then the projections onto AB, BC and CA |
| Snap.FirstMinIndex | src/main.js:441-449 | the index a strict-`<` scan ends on is the first index holding the minimum |
| Snap.FirstMinUnique | src/main.js:441-449 | at most one index is the first minimal one |
| Snap.Distances | src/main.js:442-444 | the squared distance from the hit point to each candidate |
| Snap.SnapHitToWireframe | src/main.js:421-452 | the raw point without face data; otherwise the earliest candidate at minimal squared distance (`SnappedPoint`) |
| Snap.NearestCandidate | src/main.js:441-451 | the loop returns the candidate at the first minimal index, and no candidate is closer |
| Snap.SnappedPointIsNearestCandidate | src/main.js:421-452 | with face data the snapped point is one of the candidates and no candidate is closer to the hit |
| Snap.SnappedPointBeatsEdges | src/main.js:421-452 | the snapped point is at least as close to the hit as every point of the triangle's three edges |
| Placement.Translate | src/main.js:821-846 | every world vertex moves by the node's position |
| Placement.MinCoord | src/main.js:823 | the box minimum along an axis is a lower bound and attained |
| Placement.MaxCoord | src/main.js:823 | the box maximum along an axis is an upper bound and attained |
| Placement.MinUnique | src/main.js:823 | an attained lower bound is the minimum |
| Placement.MaxUnique | src/main.js:823 | an attained upper bound is the maximum |
| Placement.TranslateMin | src/main.js:821-832 | translating the vertices moves the box minimum by the translation |
| Placement.TranslateMax | src/main.js:821-846 | translating the vertices moves the box maximum by the translation |
| Placement.TranslateCenter | src/main.js:821-846 | translating the vertices moves the box centre by the translation |
| Placement.TranslateTwice | src/main.js:834-846 | translating twice is translating by the sum |
| Placement.CenterCoord | src/main.js:824 | the box centre lies between the minimum and the maximum, midway |
| Placement.SceneNode.constructor | src/main.js:840-841 | a node with the given position and vertices |
| Placement.SceneNode.World | src/main.js:821-846 | one world vertex per local vertex |
| Placement.SceneNode.CenterAndGround | src/main.js:821-826 | the position becomes minus the box's X and Z centres and minus its Y minimum; the vertices are unchanged |
| Placement.SceneNode.RestOnGround | src/main.js:828-832 | the position drops by the box's Y minimum; X, Z and the vertices are unchanged |
| Placement.CenterAndGroundAtOrigin | src/main.js:821-826 | for a root at the origin the box's X and Z centres and its Y minimum end at 0 |
| Placement.CenterAndGroundFrom | src/main.js:821-826 | from a position p the box's X and Z centres end at -p.x and -p.z and its Y minimum at -p.y |
| Placement.RestOnGroundGrounds | src/main.js:828-832 | after resting, the lowest world vertex is at Y = 0 and every vertex keeps its X and Z |
| Placement.RestOnGroundIdempotent | src/main.js:828-832 | resting a grounded node again leaves its position unchanged |
| Placement.WrapInCenteredPivot | src/main.js:834-846 | a fresh pivot at the root's box centre; the root moves back by that centre; every world vertex stays where it was |
| Placement.WrapKeepsWorld | src/main.js:834-846 | moving the child back by c and the parent forward by c leaves every vertex in place |
| Placement.PlaceInPivot | src/main.js:909-910 | the pivot's world vertices are the root's vertices centred and grounded |
| Formats.SupportedNameIffSuffix | src/main.js:1169-1172 | a name is supported exactly when its lowered form ends in ".stl" or ".3mf" |
| Formats.DetectFormat | src/main.js:869-876 | any STL hint gives STL; a 3MF hint alone gives 3MF; with no hint, 3MF exactly for a "PK" prefix |
| Formats.HintMakesBytesIrrelevant | src/main.js:869-876 | with any hint the content is not looked at |
| Formats.SniffingOnlyWithoutHint | src/main.js:871-875 | with no hint, 3MF exactly when there are at least two bytes, 0x50 then 0x4B |
| Formats.StlWinsOverThreeMf | src/main.js:869-876 | a ".3mf" name sent as "model/stl" has both hints and is parsed as STL |
| Formats.TauriFileName | src/main.js:943 | the last `/` or `\` separated piece of the path, or "model.stl" when it is empty; never empty, never holds a separator |
| Formats.TauriMime | src/main.js:944-947 | "…3dmanufacturing…" for a ".3mf" name, "model/stl" for a ".stl" name, "application/octet-stream" otherwise |
| Formats.ThreeMfMimeIsLower | src/main.js:947 | the 3MF MIME type is unchanged by lowering |
| Formats.ThreeMfMimeHints | src/main.js:870-871 | the 3MF MIME type contains "3dmanufacturing" and neither "stl" nor "sla" |
| Formats.ThreeMfMimeLacks | src/main.js:947 | no two-character substring starting with 's' other than "s-" occurs in the 3MF MIME type |
| Formats.TauriThreeMfPathLoadsAsThreeMf | src/main.js:869-876 | a file read from a path ending in ".3mf" (any case) is parsed as 3MF, whatever its content |
| Formats.TauriThreeMfPathGetsThreeMfMime | src/main.js:943-947 | such a file gets the 3MF MIME type |
| Formats.ThreeMfNameAndMimeDetectThreeMf | src/main.js:869-876 | a ".3mf" name with the 3MF MIME type is parsed as 3MF |
| Formats.TauriStlPathLoadsAsStl | src/main.js:943-947 | a path ending in ".stl" is typed "model/stl" and parsed as STL |
| Formats.TauriDirectoryPathDefaultsToStl | src/main.js:943-947 | a path ending in a separator is read as "model.stl", typed "model/stl" and parsed as STL |
| Formats.TauriNameKeepsSuffix | src/main.js:943-944 | a four-character separator-free suffix of the lowered path is a suffix of the lowered file name |
| DropPaths.StripQuotes | src/main.js:1176 | the result is `s[i..j]` where one character is dropped from the front exactly when the string starts with a quote, and one from the back exactly when a quote ends what remains; a string without quotes at either end is unchanged |
| DropPaths.StripQuotesRemovesOnlyOnePerSide | src/main.js:1176 | `''a.stl''` loses only its outer quotes, `"C:/m.3mf"` both |
| DropPaths.UriBody | src/main.js:1180 | "file://" and at most one further '/' are removed |
| DropPaths.NormalizeDroppedPath | src/main.js:1174-1185 | "" for empty input; non-URI text trimmed and unquoted; the result fails only when decoding a file URI fails |
| DropPaths.FileUriBecomesAbsolute | src/main.js:1179-1183 | a decoded file URI is kept as it is when it starts with a drive letter or '/', and otherwise gets one leading '/'; the result always has a drive letter or a leading '/' |
| DropPaths.TrimLines | src/main.js:1190-1191 | every line, trimmed |
| DropPaths.Candidates | src/main.js:1192 | exactly the non-empty lines that do not start with '#' |
| DropPaths.CandidatesAppend | src/main.js:1192 | the filter distributes over concatenation, so it keeps the lines' order |
| DropPaths.TextCandidatesByLine | src/main.js:1189-1192 | the candidates of `line + "\n" + rest` are those of the line followed by those of the rest |
| DropPaths.NormalizeAll | src/main.js:1194-1195 | each candidate normalised |
| DropPaths.FirstSupportedNormalized | src/main.js:1194-1198 | the first supported normalised candidate, preceded only by rejected ones; "" exactly when every one is rejected; a failure only at a decode error before any match |
| DropPaths.ExtractSupportedPathFromText | src/main.js:1187-1199 | "" for empty text; any non-empty result is a supported name |
| DropPaths.ExtractFindsFirstSupported | src/main.js:1187-1199 | over the normalised candidates of the text: "" exactly when every one is rejected; a non-empty result is the first one not rejected; a failure only when the first one not rejected is a decode failure |
| DropPaths.AllRejected | src/main.js:1194-1198 | when every candidate is rejected the result is "" |
| DropPaths.FirstSupportedLineWins | src/main.js:1187-1199 | a text whose first candidate line is a supported plain path yields that line, whatever follows |
| DropPaths.FirstCandidateLine | src/main.js:1189-1192 | the trimmed first line is the first candidate when it is one |
| DropPaths.SplitAtFirstSeparator | src/main.js:1190 | splitting at a first separator yields the text before it as the first piece |
| DropPaths.EmptyNameUnsupported | src/main.js:1169-1172 | the empty name is not supported |
| DropPaths.ExtractPathsFromPayload | src/main.js:116-123 | falsy, empty-string and other payloads give no paths; a string gives itself; an array its elements; an object its `paths`, else its `path` |
| DropPaths.NativeDropPath | src/main.js:1009-1021 | only the drop and file-drop events load, and then the first supported payload path; such an event loads whenever a supported path is present |
| DropPaths.FirstSupportedName | src/main.js:1017 | the first supported path in order, or none when no path is supported |
| DropPaths.FirstSupportedFile | src/main.js:1227-1231 | the first file whose name, or path when the name is empty, is supported; none when no file qualifies |
| DropPaths.ItemFiles | src/main.js:1235-1237 | exactly the files the items deliver, no more of them than items |
| DropPaths.ItemFilesAppend | src/main.js:1235-1237 | the file filter distributes over concatenation, so the files keep the items' order |
| DropPaths.StringItemTexts | src/main.js:1210-1219 | exactly the texts of the string items, no more of them than items |
| DropPaths.StringItemTextsAppend | src/main.js:1210-1219 | the string-item filter distributes over concatenation, so the texts keep the items' order |
| DropPaths.PickSupportedFile | src/main.js:1226-1242 | a supported direct file first, otherwise a supported item file; the chosen file's candidate name is supported |
| DropPaths.FirstPathInTexts | src/main.js:1201-1224 | any non-empty result is a supported name |
| DropPaths.FirstFound | src/main.js:1213-1223 | "" exactly when every entry is ""; otherwise the first entry that is not "", preceded only by "" |
| DropPaths.FirstFoundAt | src/main.js:1213-1223 | an entry that is not "" with only "" before it is the one found |
| DropPaths.TextPathsAt | src/main.js:1194-1198 | entry i of the per-text results is what `extractSupportedPathFromText` gives for text i |
| DropPaths.FirstPathInTextsFindsFirst | src/main.js:1201-1224 | the texts are tried in order: the result is the first per-text result that is not "" (a supported path or a decode failure), and "" when there is none |
| DropPaths.ItemPathsAt | src/main.js:1210-1221 | entry i of the per-item results is the extraction of item i's text for a string item and "" for a file item |
| DropPaths.StringItemsFindFirst | src/main.js:1210-1221 | the string items are tried in item order: the result is the first per-item result that is not "", and "" when there is none |
| DropPaths.GetDroppedPath | src/main.js:1201-1224 | "" without a transfer; the uri-list's result when it is not "" (a supported path or a failure); otherwise the plain text's when that is not ""; otherwise the scan over the string items' texts |
| DropPaths.HandleDrop | src/main.js:1244-1289 | a load through the shell is always of a supported path |
| DropPaths.DirectFileFirst | src/main.js:1226-1231 | the first supported direct file is what is loaded, whatever else the transfer holds |
| DropPaths.FirstSupportedFileIsFirst | src/main.js:1227-1231 | the first qualifying file is the one found |
| DropPaths.PickedFileGoesThroughShellOnlyWithoutName | src/main.js:1262-1270 | a chosen file is read through the shell exactly when it has no name, and otherwise loaded directly |
| DropPaths.UriListBeforePlainText | src/main.js:1204-1205 | with no supported file, a supported uri-list path is loaded before the plain text is looked at |
| DropPaths.PlainTextBeforeStringItems | src/main.js:1207-1208 | when the uri-list yields nothing, a supported plain-text path is loaded before the string items |
| DropPaths.StringItemAfterPlainText | src/main.js:1210-1221 | when no file is picked and neither the uri-list nor the plain text yields anything, the first string item with a supported path is loaded, whatever the later items hold |
| DropPaths.NothingUsableIsUnsupported | src/main.js:1273-1288 | with no supported file and no supported text the drop is reported unsupported |
| DropPaths.NoPathInTransfer | src/main.js:1201-1224 | with nothing found in any text the dropped path is "" |
| DropPaths.NoPathInTexts | src/main.js:1213-1223 | with nothing found in any text the result is "" |
| DebugLog.FormatLine | src/main.js:75-77 | the line starts with `[ts] message`, is exactly that without details, and otherwise ends with the separator and the details and is exactly six characters longer than the timestamp, message and details together, so nothing else can sit between them |
| DebugLog.Pushed | src/main.js:78-81 | a push appends the line and drops the oldest one only past the bound; the new line is last and the bound is kept |
| DebugLog.PushAllKeepsLast | src/main.js:78-81 | after any sequence of pushes the buffer holds the last min(n, maxLines) lines, oldest first |
| DebugLog.Logger.constructor | src/main.js:30-35 | enabled, no panel body, no lines, bound 200 |
| DebugLog.Logger.AttachBody | src/main.js:44-70 | the panel body now exists; nothing else changes |
| DebugLog.Logger.Log | src/main.js:73-84 | nothing without a panel or when disabled; otherwise the lines become `Pushed` of the old lines and the panel shows them joined by newlines |
| Startup.Greet | src-tauri/src/lib.rs:7-9 | "Hello, " + name + "! You've been greeted from Rust!" |
| Startup.GreetRecoversName | src-tauri/src/lib.rs:7-9 | the name can be read back from between the fixed prefix and suffix |
| Startup.GreetInjective | src-tauri/src/lib.rs:7-9 | different names give different greetings |
| Startup.FileName | src-tauri/src/lib.rs:19-20 | `Path::file_name`: the last '/'-piece other than "" and "." (the one `LastNamedIndex` finds), and none exactly when there is no such piece or it is ".."; never empty, "." or "..", and without '/' |
| Startup.LastNamedIndex | src-tauri/src/lib.rs:19-20 | the last path piece other than "" and "." |
| Startup.LastNamedPiece | src-tauri/src/lib.rs:19-20 | some exactly when there is a last piece other than "" and "." and it is not "..", and then that piece |
| Startup.LastDot | src-tauri/src/lib.rs:20 | the last '.' of a name, none after it |
| Startup.NameExtension | src-tauri/src/lib.rs:20 | some exactly when the name has a last dot that is not its first character; then the name ends with that dot and the result, which holds no '.' (so it is the text after the last dot) |
| Startup.Extension | src-tauri/src/lib.rs:19-21 | `Path::extension`: some exactly when there is a file name whose last dot is not its first character; then the file name ends with the dot and the result, which holds neither '.' nor '/' |
| Startup.SupportedPathIffSuffix | src-tauri/src/lib.rs:18-27 | a path is supported exactly when it has a file name of more than four characters whose last four, lowered, are ".stl" or ".3mf" |
| Startup.SupportedExtensionHasSuffix | src-tauri/src/lib.rs:18-27 | a supported extension means such a suffix |
| Startup.SuffixGivesSupportedExtension | src-tauri/src/lib.rs:18-27 | such a suffix means a supported extension |
| Startup.FirstTrue | src-tauri/src/lib.rs:33 | the index of the first true flag, with only false ones before it; none when every flag is false |
| Startup.FirstSupported | src-tauri/src/lib.rs:33 | the index of the first supported argument, with none before it; none when no argument is supported |
| Startup.StartupFileFromArgs | src-tauri/src/lib.rs:29-34 | a path exactly when some argument after argv[0] is supported, and then the first such argument |
| Startup.PendingFile.constructor | src-tauri/src/lib.rs:43-47 | the slot starts as `StartupFileFromArgs` of the arguments |
| Startup.PendingFile.Consume | src-tauri/src/lib.rs:37-40 | returns the stored path and leaves the slot empty |
| Startup.ConsumeTwice | src-tauri/src/lib.rs:37-40 | a second consume returns nothing |
| Text.LowerChar | src/main.js:1170 | ASCII lowering: upper-case letters map to lower case, other characters are kept |
| Text.ToLower | src/main.js:1170 | lowering character by character, keeping the length |
| Text.ToLowerIdempotent | src/main.js:1170 | lowering twice is lowering once |
| Text.ContainsIffOccurrence | src/main.js:870-871 | `includes` holds exactly when the substring occurs at some index |
| Text.Trim | src/main.js:1176 | the result is a slice without leading or trailing white space, and everything cut off is white space |
| Text.TrimIdempotent | src/main.js:1191 | trimming twice is trimming once |
| Text.Split | src/main.js:1190 | splitting gives at least one piece |
| Text.JoinSplit | src/main.js:1190 | joining the pieces with the separator gives the text back |
| Text.SplitPiecesAreSeparatorFree | src/main.js:1190 | no piece contains the separator |
| Text.AfterLast | src/main.js:943 | `split(/[/\\]/).pop()`: the longest separator-free suffix |
| Text.AfterLastUnique | src/main.js:943 | every separator-free suffix preceded by a separator or the start is that one |

## Left out

- Rendering is not modelled: the three.js scene, lights, shadows, the camera fit, view modes, the render loop, hover previews and guide circles.
- The raycaster is replaced by its answer. A pointer-up is given the first hit (point and world-space triangle) and whether a mesh was hit.
- Rotation by the gizmo is not modelled. A node's vertices are world-space offsets that any earlier rotation has already produced, and a box is the exact box of those vertices. three.js's `Box3.setFromObject` instead transforms each geometry's local bounding box by `matrixWorld`, which for a rotated mesh gives a box that can be larger than the exact one; the model does not capture that difference.
- Parsing is not modelled: the STL and 3MF loaders, normals and materials. `Viewer.Session.LoadParsed` takes the parsed root and its mesh count as inputs.
- File and shell I/O are not modelled: `read_file_bytes`, `invoke`, `listen`, the async promise plumbing of `getAsString` and of the startup and open-file listeners.
- The `Mutex` around the pending slot is left out; the slot is modelled single-threaded. The `run` builder wiring is left out apart from the initial slot.
- `decodeURIComponent` is a parameter of type `string -> Option<string>`; `None` stands for the `URIError` it throws, which makes the drop end in `Failed`.
- The clock and the JSON serialisation in `debugLog` are inputs of `DebugLog.Logger.Log`; scrolling the panel is left out.
- Every `debugLog` call site outside the logger itself is not modelled: the start-up and error listeners (main.js:95, 128, 131, 140), `loadFromFile` (main.js:856, 877, 925, 928), `loadFileFromTauriPath` (main.js:941, 955), the native drop listener (main.js:1010, 1024), the pointerup listener (main.js:1103) and `handleDrop` (main.js:1247, 1262, 1279, 1284). `DebugLog.Logger` stands alone and is not a field of `Viewer.Session`, so these handlers do not append log lines in the model.
- DOM text is modelled as a `ListView` value and the debug panel's text. `toFixed` formatting of the distances is left out.
- `Text.LowerChar`: only ASCII letters are lowered. JavaScript's `toLowerCase` also lowers other letters. This does not change the ".stl", ".3mf" and MIME substring tests.
- `Startup.FileName`: paths use the Unix separator '/'. Windows prefixes and `\` separators are not modelled. Non-UTF-8 arguments (`to_string_lossy`) are not modelled.
- `Placement.MinCoord`: an empty vertex set, for which three.js gives an infinite box, is excluded by `|local| > 0`. The loader's mesh count does not rule this out: a mesh whose geometry has no vertices still counts (main.js:896-901).
- `Viewer.Session.LoadParsed`: loading a root whose meshes have no vertices is excluded by `requires meshCount > 0 ==> |root.local| > 0`. In three.js the empty box makes `centerAndGroundModel` (main.js:821-826) set an infinite or NaN position, which `real` cannot express.
- `Placement.WrapInCenteredPivot`: the parent link from the root to the pivot is not kept. The pivot's own vertices are the root's world vertices seen from the pivot.
- `Measurements.Measurement`: the distance is stored squared, and the label's position above the segment is left out.
- `Viewer.Session.LoadParsed`: the error alerts, the loading overlay, the metrics and the unchecking of the measure-mode checkbox are left out.
- The keyboard shortcuts, the light-angle and rotation-snap inputs and the drag-over diagnostics are left out; they only change rendering.
