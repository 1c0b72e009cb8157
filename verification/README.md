# Natron editor core: a Dafny model

This project models the sequential, list-and-record logic at the centre of
Natron 0.9.5's compositing editor, and proves properties of it:

- **Roto shapes** (`Roto`): Bezier control points and feather points, item and
  drawable-item defaults, the roto context's knob ranges, and its unsigned
  64-bit `age` counter. It also covers the bounds-checked `atIndex`, the
  first-match `find…Nearby` scans over an acceptance box, and the keyframe
  queries delegated to the first point.
- **Animation curves** (`Keyframes`): a curve as a keyframe sequence
  strictly ordered by time. It covers lookup by time and by index, insertion,
  removal, and `setKeyFrameValueAndTime`, which moves a key and reports its new
  index.
- **Curve-editor commands** (`CurveEditor`):
  - the per-key move rule (time shift, plus a value shift that is rejected
    outside the curve's Y range);
  - the visit order chosen by the sign of `dt`;
  - `MoveKeysCommand` with its redo/undo, its `evaluateOnChange` handling and
    the `mergeWith` state machine;
  - `AddKeysCommand` and `RemoveKeysCommand`. Adding keys and undoing it
    restores the curves when the keys are at times the curve did not hold.
    Removing recorded keys and undoing it restores every curve's times, and
    restores a parametric curve exactly.
- **Pane layout** (`PaneLayout`): the records `ProjectGuiSerialization::initialize`
  saves for each named tab widget, and `createParenting`. That function recovers
  the split tree from the split tags embedded in pane names, using
  `QString::lastIndexOf` and `QString::remove` as modelled here.
- **Application manager** (`AppManager`):
  - the plugin tool-button registry (find-or-create by ID, parent chains
    built from a group path);
  - the knob clipboard;
  - the open-file request that is deferred until the application has loaded.
- **Main window** (`MainWindow`):
  - the recent-files list and its menu actions;
  - the toolbar order;
  - the pane, splitter and viewer registries;
  - the capped queue of open property panels;
  - histogram naming.
- **Project snapshot** (`ProjectSnapshot`): the order-preserving filters of
  `ProjectSerialization::initialize`.
- **Version macros** (`Macros`): `NATRON_VERSION_ENCODE` and its injectivity
  and order preservation, `GCC_VERSION_AT_LEAST`, and the build constants.
- **Shared list helpers** (`Common`): `Option`/`Result`, filtering,
  first-match search and removal, and the subsequence relation.

The model's shape:

- Widgets, nodes and panels are identified by numbers standing for their
  pointers.
- Doubles are `real`.
- Every operation is a pure function over immutable datatypes. The loops the
  source writes out are methods with loop invariants:
  - `ProjectSnapshot.ActiveNodes`, `ProjectSnapshot.Initialize`;
  - `MainWindow.UpdateRecentFileActions`, `MainWindow.ToolButtonsOrdered`,
    `MainWindow.OnMaxVisibleDockablePanelChanged`;
  - `Roto.FindControlPointNearby`.
- The project snapshot clears its node list before filling it, but not its
  knob list: `ProjectSnapshot.Initialize` appends the saved knobs to whatever
  the serialization already held, as the code does.
- Most conditions that the source asserts, or that it reports by throwing an
  exception, become `Result` errors. Examples: removing an unregistered pane,
  a missing parent pane, an out-of-range index. The status checks of the
  add/remove-keys commands are the exception, listed under "## Left out".
- The pane layout is built from an empty map: `PaneLayout.BuildLayouts`
  assumes the serialization's `_layout` holds nothing before `initialize`
  inserts into it (Gui/ProjectGuiSerialization.cpp:99 does not clear it).
- The split tags are parameters. The horizontal branch of `createParenting`
  removes as many characters as the vertical tag has, so its parent is the
  name without the horizontal tag only when both tags have the same length;
  `PaneLayout.HorizontalParentUnequal` states what happens otherwise.

## Model

| member | source | states |
|---|---|---|
| Roto.NewControlPoint | Engine/RotoContextPrivate.h:52-70 | A fresh control point has position and both tangents at 0, no keyframes and no master track. |
| Roto.NewBezier | Engine/RotoContextPrivate.h:78-89 | A fresh Bezier has no points, no feather points and is not finished, so it satisfies the one-feather-point-per-point invariant. |
| Roto.NewRotoItem | Engine/RotoContextPrivate.h:172-193 | A fresh item is globally activated and not locked. |
| Roto.NewDrawableItem | Engine/RotoContextPrivate.h:212-272 | A fresh shape has opacity 1, feather 0, fall-off 1, is activated, not inverted, and its overlay colour is opaque. |
| Roto.NewRotoContext | Engine/RotoContextPrivate.h:313-366 | A fresh context has auto-keying on, ripple edit off, feather link on and age 0. Its knobs have the stated ranges and defaults: opacity [0,1] default 1; feather [-100,100] default 0; fall-off [0.2,5] default 1; activated default true; inverted default false. All of them are disabled and not saved. |
| Roto.ContextDefaultsConsistent | Engine/RotoContextPrivate.h:231-366 | Each context knob's default lies inside its own bounds. A fresh shape's values are legal values of the context knobs that mirror them. |
| Roto.IncrementRotoAge | Engine/RotoContextPrivate.h:372-379 | The age advances by one modulo 2^64, always changes, and nothing else in the context changes. |
| Roto.IncrementRotoAgeCounts | Engine/RotoContextPrivate.h:372-379 | n increments advance the age by exactly n modulo 2^64 and change nothing else. |
| Roto.AtIndex | Engine/RotoContextPrivate.h:114-138 | An out-of-range error exactly when the index is negative or at least the number of points; otherwise the point at that position. |
| Roto.FindControlPointNearby | Engine/RotoContextPrivate.h:140-153 | On a match, it returns the first control point in list order whose position lies in the closed box, with its index. Otherwise no point lies in the box and the index is left as it was. |
| Roto.FindFeatherPointNearby | Engine/RotoContextPrivate.h:155-168 | The same first-match rule over the feather points only. |
| Roto.FirstNearbyUnique | Engine/RotoContextPrivate.h:140-153 | The first-match index is unique. |
| Roto.NearbyIndexIsAtIndex | Engine/RotoContextPrivate.h:114-153 | The index a scan reports is a valid index for atIndex and addresses the same point. |
| Roto.HasKeyframeAtTime | Engine/RotoContextPrivate.h:92-102 | False without points; otherwise exactly whether the first point has a keyframe at that time. |
| Roto.GetKeyframeTimes | Engine/RotoContextPrivate.h:104-112 | The output set only grows. It is unchanged without points; otherwise it gains exactly the first point's keyframe times. |
| Roto.KeyframeQueriesAgree | Engine/RotoContextPrivate.h:92-112 | A time is a keyframe of the Bezier iff it is among the collected keyframe times. |
| Keyframes.KeyFrameIndex | Gui/CurveEditorUndoRedo.cpp:155 | -1 exactly when no keyframe has that time; otherwise a position holding a keyframe at that time. |
| Keyframes.KeyFrameIndexOfSorted | Gui/CurveEditorUndoRedo.cpp:155 | On a sorted curve, looking up a key's time finds that key's own position. |
| Keyframes.KeyWithIndex | Gui/CurveEditorUndoRedo.cpp:192 | A key exactly for indexes inside the curve, and then the key at that index. |
| Keyframes.KeyWithIndexAtTime | Gui/CurveEditorUndoRedo.cpp:155-161 | Looking up the index of a time and then the key at that index finds a key exactly when the curve has one at that time, and the key found is at that time. |
| Keyframes.SetKeyFrameValueAndTime | Gui/CurveEditorUndoRedo.cpp:158-161 | An error for an index outside the curve, and another for a time held by a different key. Otherwise the curve stays sorted and keeps its length. The moved key sits at the reported index, and the curve's times lose the old time and gain the new one. The keys are exactly the moved key plus the old keys at other times, so every other key keeps its value. |
| Keyframes.MoveThenMoveBack | Gui/CurveEditorUndoRedo.cpp:155-161 | Moving a key and then moving the key found at its new time back to its old time and value restores the curve and the key's position exactly. |
| Keyframes.SetKeyframe | Gui/CurveEditorUndoRedo.cpp:45-49 | Setting a key keeps the curve sorted. It adds the time, and the keys are exactly the new key plus the old keys at other times. |
| Keyframes.DeleteKeyframe | Gui/CurveEditorUndoRedo.cpp:51-57 | Deleting a time keeps the curve sorted. The keys are exactly the old keys at other times, and the curve is unchanged when the time is absent. |
| Keyframes.SortedUnique | Gui/CurveEditorUndoRedo.cpp:28-75 | Two sorted curves with the same keys are equal. |
| CurveEditor.MoveTarget | Gui/CurveEditorUndoRedo.cpp:144-153 | The new time is the old time plus dt. The new value is the old value plus dv when that stays inside the curve's Y range, and the old value otherwise. |
| CurveEditor.MoveKeyOnCurve | Gui/CurveEditorUndoRedo.cpp:140-162 | On success the curve stays sorted and only its keys change. The key sits at the reported index, and the curve's times lose the source time and gain the target time. The keys are exactly the destination key plus the old keys at times other than the source time. A missing key is an error. |
| CurveEditor.MoveKey | Gui/CurveEditorUndoRedo.cpp:140-162 | Moves a key on its own curve only, keeping every curve sorted. |
| CurveEditor.MoveKeyFrame | Gui/CurveEditorUndoRedo.cpp:140-162 | The result does not depend on other curves. |
| CurveEditor.UndoKeyOnCurve | Gui/CurveEditorUndoRedo.cpp:144-161 | Undoing the move of one key restores its curve exactly, whatever the value clamping did. |
| CurveEditor.VisitOrder | Gui/CurveEditorUndoRedo.cpp:169-177 | Keys are visited front to back when dt < 0, back to front otherwise. |
| CurveEditor.MoveAll | Gui/CurveEditorUndoRedo.cpp:168-182 | Curves stay sorted and only keys change. Curves no key lives on are untouched, and a completed loop records one new index per key. |
| CurveEditor.MovedIndexesPointAtTargets | Gui/CurveEditorUndoRedo.cpp:155-177 | With one key per curve, each recorded index addresses, in the moved curves, the target of the key moved at that step. |
| CurveEditor.MoveAllUndoRestores | Gui/CurveEditorUndoRedo.cpp:164-201 | With one key per curve, undoing a completed move restores every curve exactly. |
| CurveEditor.Move | Gui/CurveEditorUndoRedo.cpp:164-201 | The curves are the keys moved in visit order, sorted, with only keys changed. The knob flags are untouched, and an aborted move or an empty key list leaves the selection alone. A completed move rebuilds the selection with the corrected pairing (see Findings). |
| CurveEditor.MoveSelectsMovedKeys | Gui/CurveEditorUndoRedo.cpp:164-201 | With one key per curve, a completed move selects exactly the moved keys at their new times and values. |
| CurveEditor.SelectionAsWrittenLosesMovedKeys | Gui/CurveEditorUndoRedo.cpp:186-197 | On two curves moved right by one, the selection as the source rebuilds it holds one key that did not move, while Move selects both moved keys. |
| CurveEditor.NewMoveKeysCommand | Gui/CurveEditorUndoRedo.cpp:126-137 | The command merges iff it has keys, starts with no redo done, and keeps its keys and offsets. |
| CurveEditor.RestoreAfterSet | Gui/CurveEditorUndoRedo.cpp:213-233 | Restoring the remembered evaluate-on-change flags undoes setting them. |
| CurveEditor.Redo | Gui/CurveEditorUndoRedo.cpp:209-237 | The first redo is marked done. On a first redo without update-on-first-redo, every touched knob has evaluate-on-change off during the move and untouched knobs keep theirs. Afterwards every flag has its old value. |
| CurveEditor.RedoThenUndoRestores | Gui/CurveEditorUndoRedo.cpp:203-237 | With one key per curve, undo after a completed redo gives back the curves exactly. |
| CurveEditor.MergeWith | Gui/CurveEditorUndoRedo.cpp:239-261 | Another kind of command is refused and leaves the command unchanged. A placeholder command absorbs a placeholder and refuses a real move. A merging command absorbs anything, accumulating dt and dv, and stops merging when the incoming command is a placeholder. |
| CurveEditor.MergeRunAccumulates | Gui/CurveEditorUndoRedo.cpp:239-261 | A run of real moves is absorbed completely, with the total offsets. |
| CurveEditor.MergingStopsAfterPlaceholder | Gui/CurveEditorUndoRedo.cpp:246-257 | After a placeholder is absorbed the command never changes again. |
| CurveEditor.AddKeysRedo | Gui/CurveEditorUndoRedo.cpp:38-75 | Redo adds exactly the command's times to its curve and leaves every other curve as it was. Keys at other times stay. The last command key at each time ends up on the curve with the recorded value on a parametric curve, and with the knob's own value at that time otherwise. |
| CurveEditor.AddKeysUndo | Gui/CurveEditorUndoRedo.cpp:38-71 | Undo removes exactly the command's times from its curve: the keys left are exactly the old keys at other times. Every other curve stays as it was. |
| CurveEditor.AddKeysValues | Gui/CurveEditorUndoRedo.cpp:41-49 | After the adding loop, each command key that is the last one at its time is on the curve with the value the knob kind gives it. |
| CurveEditor.AddKeysContents | Gui/CurveEditorUndoRedo.cpp:41-49 | After the adding loop every key at another time is still on the curve. Each command key that is the last one at its time is there too: as recorded on a parametric curve, and with the knob's own value at that time otherwise. |
| CurveEditor.AddKeysKeepsOthers | Gui/CurveEditorUndoRedo.cpp:38-67 | Adding keys keeps every key at another time. |
| CurveEditor.AddKeysRedoThenUndo | Gui/CurveEditorUndoRedo.cpp:38-75 | When the keys are at new times, redo followed by undo gives back the original curves. |
| CurveEditor.RemovePairsContents | Gui/CurveEditorUndoRedo.cpp:85-116 | After the removal loop a curve holds exactly its old keys whose times were not recorded on it. |
| CurveEditor.RemoveKeysRedo | Gui/CurveEditorUndoRedo.cpp:85-123 | Redo removes exactly the recorded times from each curve. |
| CurveEditor.RemoveKeysUndo | Gui/CurveEditorUndoRedo.cpp:85-120 | Undo gives each curve exactly its recorded times back and keeps its keys at other times. The last recorded key at each (curve, time) is on its curve as recorded when the curve is parametric, and with the knob's own value at that time otherwise. |
| CurveEditor.AddPairsKeepsOthers | Gui/CurveEditorUndoRedo.cpp:88-99 | The adding loop keeps every key at a time not recorded on its curve. |
| CurveEditor.AddPairsValues | Gui/CurveEditorUndoRedo.cpp:88-99 | After the adding loop, the last recorded key at each time of a curve is on it: as recorded on a parametric curve, with the knob's own value otherwise. |
| CurveEditor.AddPairsValueAt | Gui/CurveEditorUndoRedo.cpp:88-99 | For one recorded pair that is the last at its curve and time, the adding loop leaves its key, or the knob's own value at that time on a non-parametric curve. |
| CurveEditor.RemoveKeysRedoThenUndoTimes | Gui/CurveEditorUndoRedo.cpp:85-123 | Removing recorded keys and undoing it restores every curve's keyframe times. |
| CurveEditor.RemoveKeysRedoThenUndoParametric | Gui/CurveEditorUndoRedo.cpp:85-123 | When the recorded keys were on their curves, removing them and undoing it gives every parametric curve back exactly, values included. |
| PaneLayout.LastIndexOf | Gui/ProjectGuiSerialization.cpp:139-140 | -1 iff the tag does not occur; otherwise the tag occurs there and at no later position. |
| PaneLayout.RemoveOccurrence | Gui/ProjectGuiSerialization.cpp:157-175 | Removing an occurrence of a tag leaves a string that gives the name back when the tag is put back in. |
| PaneLayout.PaneRecord | Gui/ProjectGuiSerialization.cpp:68-98 | A non-floating pane records position -1,-1 and a floating one its position. Only non-empty tab names are kept, all of them, and the record is not yet linked. |
| PaneLayout.TabsKeepOrder | Gui/ProjectGuiSerialization.cpp:91-98 | The saved tab names are a subsequence of the pane's tab names. |
| PaneLayout.BuildLayouts | Gui/ProjectGuiSerialization.cpp:66-99 | A record exists exactly for each non-empty pane name, and no record is linked yet. |
| PaneLayout.BuildLayoutsFirstWins | Gui/ProjectGuiSerialization.cpp:99 | The record for a name is the one built from the first pane carrying it. |
| PaneLayout.ParentName | Gui/ProjectGuiSerialization.cpp:138-175 | No parent iff neither tag occurs; a parent name is strictly shorter. |
| PaneLayout.VerticalParent | Gui/ProjectGuiSerialization.cpp:152-157 | In a vertical split, which includes the tie where both tags last occur at the same position, the parent is the name with the vertical tag removed at its last occurrence, and the name is the parent with the tag put back. |
| PaneLayout.VerticalParentOnTie | Gui/ProjectGuiSerialization.cpp:143 | In "xab" with vertical tag "a" and horizontal tag "ab" both tags last occur at 1; the tie counts as a vertical split and the parent is "xb". |
| PaneLayout.HorizontalParent | Gui/ProjectGuiSerialization.cpp:172-175 | In a horizontal split the parent is the name with as many characters as the vertical tag has removed at the last occurrence of the horizontal tag. With tags of equal length that is the horizontal tag itself, and the name is the parent with the tag put back. |
| PaneLayout.HorizontalParentUnequal | Gui/ProjectGuiSerialization.cpp:172-175 | With tags of different lengths the horizontal parent is not the name without the horizontal tag. A shorter vertical tag leaves the end of the horizontal tag in the parent. A longer one also removes characters after the tag, and agrees only when the tag ends the name. |
| PaneLayout.Link | Gui/ProjectGuiSerialization.cpp:158-168 | The child is listed once among the parent's splits, records its parent and is marked linked; nothing else changes. |
| PaneLayout.CreateParenting | Gui/ProjectGuiSerialization.cpp:137-191 | A pane that is no split child changes nothing. Otherwise the records keep their names, and longer names are untouched. |
| PaneLayout.ParentingLinksChild | Gui/ProjectGuiSerialization.cpp:152-189 | After createParenting the pane names its parent, is linked, and the parent lists it. |
| PaneLayout.ParentingKeepsSplitsUnique | Gui/ProjectGuiSerialization.cpp:161-185 | No split list ever holds a name twice. |
| PaneLayout.ParentingPassKeeps | Gui/ProjectGuiSerialization.cpp:102-107 | The second pass keeps the split lists duplicate-free and never unlinks a pane. |
| PaneLayout.ParentingPassLinksAll | Gui/ProjectGuiSerialization.cpp:102-107 | After the second pass every visited pane that is a split child is linked. |
| AppManager.FindOrCreate | Gui/GuiApplicationManager.cpp:541-549 | It returns the first entry with the ID and leaves the registry unchanged when one exists; otherwise it appends exactly one new entry with that ID. Existing entries never move. |
| AppManager.FindOrCreateUnique | Gui/GuiApplicationManager.cpp:541-549 | The only inserter keeps IDs unique, and asking again for the same ID returns the same entry. |
| AppManager.Link | Gui/GuiApplicationManager.cpp:524-527 | The child is listed once under the parent and names it. No other parent changes, and children lists only gain the child. |
| AppManager.AddChainLinks | Gui/GuiApplicationManager.cpp:523-530 | With distinct IDs, each group hangs under the group before it. |
| AppManager.AddPluginToolButtonsRegisters | Gui/GuiApplicationManager.cpp:517-536 | The registry afterwards holds exactly the old IDs, the groups and the plugin. |
| AppManager.AddPluginToolButtonsUnique | Gui/GuiApplicationManager.cpp:517-536 | IDs stay unique. With no groups, only the plugin's entry is found or created and no parent is set. |
| AppManager.AddPluginToolButtonsLinks | Gui/GuiApplicationManager.cpp:517-536 | With distinct names, each group is the parent of the next and the last group the parent of the plugin. |
| AppManager.InitClipBoard | Gui/GuiApplicationManager.cpp:513 | After initGui the clipboard is empty and its contents are untouched. |
| AppManager.SetKnobClipBoard | Gui/GuiApplicationManager.cpp:569-603 | After a copy the clipboard is not empty, and reading it returns exactly the fields copied. |
| AppManager.ClipBoardLastCopyWins | Gui/GuiApplicationManager.cpp:574-588 | The clipboard after a copy does not depend on what it held before. |
| AppManager.HandleOpenFileRequest | Gui/GuiApplicationManager.cpp:796-810 | The request is cleared and exactly one load of it is issued, split into path and file name. It goes into the main instance iff that instance can be reused. |
| AppManager.SetFileToOpen | Gui/GuiApplicationManager.cpp:788-794 | The request is handled at once iff the application is loaded and the request is non-empty; otherwise it is only kept. |
| AppManager.OnLoadCompleted | Gui/GuiApplicationManager.cpp:812-817 | A kept request is handled; without one nothing happens. |
| AppManager.DeferredRequestLoadedOnce | Gui/GuiApplicationManager.cpp:788-817 | A request made before loading completes is loaded exactly once, when loading completes. |
| MainWindow.ParseNatToString | Gui/Gui.cpp:1301 | The decimal text of a number reads back as the number. |
| MainWindow.UpdateRecentFiles | Gui/Gui.cpp:1647-1654 | The file is at the head and nowhere else, and the list holds between 1 and 5 entries. |
| MainWindow.RecentFilesOrder | Gui/Gui.cpp:1649-1652 | The other entries are a subsequence of the old list. |
| MainWindow.RecentFilesKeep | Gui/Gui.cpp:1649-1652 | Only entries at the tail are dropped: every entry of the old list's first four (or all, when there are fewer than five) is kept, other than the file itself. |
| MainWindow.RecentFilesIdempotent | Gui/Gui.cpp:1666-1673 | Recording the same file twice is the same as recording it once. |
| MainWindow.UpdateRecentFileActions | Gui/Gui.cpp:2258-2273 | The first min(n, 5) actions are visible and carry their file and its menu text; the rest are hidden and keep their contents. |
| MainWindow.IsNamedGroup | Gui/Gui.cpp:1510-1516 | True iff the title is one of the twelve named groups. |
| MainWindow.ToolButtonsOrdered | Gui/Gui.cpp:1495-1529 | The result is the named groups' buttons, group by group in table order, followed by the unnamed top-level buttons in registry order. |
| MainWindow.ToolButtonsOrderedSpec | Gui/Gui.cpp:1495-1529 | The toolbar holds exactly the top-level buttons with children, sorted by their position in the group table. The unnamed ones keep registry order. |
| MainWindow.RegisterPane | Gui/Gui.cpp:1333-1339 | The pane is listed, no list gains a duplicate, and adding a listed pane changes nothing. |
| MainWindow.RegisterSplitter | Gui/Gui.cpp:1341-1347 | The same for splitters. |
| MainWindow.AddViewerTab | Gui/Gui.cpp:1237-1246 | The same for viewer tabs. |
| MainWindow.RemovePane | Gui/Gui.cpp:1326-1331 | An error iff the pane is not listed; otherwise one copy of it is removed. |
| MainWindow.RemoveSplitter | Gui/Gui.cpp:1349-1355 | One copy of the splitter is removed; the window is unchanged when it is absent. |
| MainWindow.RegisterRemoveSplitter | Gui/Gui.cpp:1341-1355 | Registering a new splitter and removing it restores the window. |
| MainWindow.RegisterRemovePane | Gui/Gui.cpp:1326-1339 | Registering a new pane and removing it restores the window. |
| MainWindow.RemoveVisibleDockablePanel | Gui/Gui.cpp:2681-2687 | One copy of the panel is removed; the window is unchanged when it is absent. |
| MainWindow.AddVisibleDockablePanel | Gui/Gui.cpp:2669-2679 | The panel goes at the end. When the list is exactly at a non-zero maximum the oldest panel is closed first; otherwise nothing is closed. |
| MainWindow.DockablePanelCap | Gui/Gui.cpp:2669-2679 | Under a non-zero maximum the list stays within it, keeping the most recent panels. |
| MainWindow.OnMaxVisibleDockablePanelChanged | Gui/Gui.cpp:2689-2700 | A maximum of 0, or one the list already respects, changes nothing; otherwise only the most recent panels, up to the maximum, stay open. |
| MainWindow.InitialRegistries | Gui/Gui.cpp:347 | A fresh window has empty lists and histogram numbering starting at 1. |
| MainWindow.HistogramNumber | Gui/Gui.cpp:1301 | Reading the number back from the name addNewHistogram gives inverts the naming. |
| MainWindow.AddNewHistogram | Gui/Gui.cpp:1298-1305 | The new histogram is named after the counter, appended, and the counter advances by one. |
| MainWindow.HistogramsNumberedFromOne | Gui/Gui.cpp:1298-1305 | In a fresh window the k-th histogram opened is named "Histogram k". |
| MainWindow.AddNewHistogramNamed | Gui/Gui.cpp:1298-1305 | Adding a histogram keeps the names unique and each one numbered below the counter. |
| MainWindow.RemoveHistogram | Gui/Gui.cpp:1307-1314 | An error iff the histogram is not listed; otherwise one copy is removed. |
| MainWindow.RemoveHistogramNamed | Gui/Gui.cpp:1307-1314 | Removing a histogram keeps the names unique and each one numbered below the counter. |
| ProjectSnapshot.ActiveNodes | Engine/ProjectSerialization.cpp:22-29 | The loop collects exactly the filter of the activated nodes. |
| ProjectSnapshot.AppendSavedKnobs | Engine/ProjectSerialization.cpp:38-47 | The saved knobs are appended to the knobs already held. |
| ProjectSnapshot.Initialize | Engine/ProjectSerialization.cpp:18-56 | The nodes written are the activated ones in order. The saved knobs are appended, and the timeline bounds, current frame and creation date are copied verbatim. |
| ProjectSnapshot.SnapshotContents | Engine/ProjectSerialization.cpp:22-47 | The nodes written are exactly the activated nodes and the knobs written exactly the saved knobs, each in original order. |
| ProjectSnapshot.SnapshotNodeCount | Engine/ProjectSerialization.cpp:31-35 | One node is written per activated node. |
| Macros.EncodedVersion | Global/Macros.h:33-45 | The release encodes as 905. |
| Macros.Decode | Global/Macros.h:37-40 | Decoding yields a version whose minor and revision fit in two digits. |
| Macros.DecodeEncode | Global/Macros.h:37-40 | Decoding the encoding of a well-formed version gives it back. |
| Macros.EncodeOrder | Global/Macros.h:37-40 | For minor and revision in [0,99], encodings compare as the versions compare lexicographically, and are equal iff the versions are. |
| Macros.GccVersionAtLeast | Global/Macros.h:206-210 | False for any other compiler. For GCC, when the minor and patch numbers of both versions are in [0,99], it holds iff the compiler's version is not below the one asked for. |
| Common.FilterSubseq | Engine/ProjectSerialization.cpp:22-47 | A filter keeps exactly the elements satisfying the predicate, as a subsequence. |
| Common.SplitPath | Gui/GuiApplicationManager.cpp:800 | The path and the file name concatenate back to the input; the file name has no '/', and the path is empty or ends in '/'. |

## Left out

- Qt widgets, menus, dialogs, QSettings, icon loading and rendering: there is no behaviour to state beyond the lists modelled here.
- Threading: the mutexes around each list and the main-thread assertion in `incrementRotoAge`. Only the sequential effect is modelled.
- `Curve` internals (interpolation, tangents, evaluation) are not part of this model. A curve is its sorted keyframe sequence plus a Y range. A move onto a time already held by another key is rejected; this is a choice made for the model.
- A control point's position at a time is a parameter `pos`, and its keyframe times are an abstract set.
- `TabWidget::splitVerticallyTag` and `splitHorizontallyTag` are parameters, required to be non-empty.
- The order in which the second layout pass visits the panes (the map's key order) is a parameter.
- `PluginGroupNode::tryAddChild` and `setParent` are modelled as add-if-absent and overwrite.
- `DockablePanel::closePanel` is modelled as removing the panel from the head of the open list.
- `SequenceParsing::removePath` and `QFileInfo::fileName` are modelled as a split after the last '/'.
- `Project::removeAutoSaves`, the spin-box update in `onMaxVisibleDockablePanelChanged`, the additional formats and the node counters of the project snapshot: each calls code that is not part of this model.
- `AppManager.HandleOpenFileRequest`: whether instance 0 exists and its graph is worthless is a parameter.
- `MainWindow.AddNewHistogram`: does not model the wrap-around of the `int` counter after 2^31 - 1 histograms.
- `CurveEditor.MoveAllUndoRestores`, `CurveEditor.RedoThenUndoRestores` and `CurveEditor.MoveSelectsMovedKeys`: proved for at most one selected key per curve. With several keys on one curve, an undo can find a different key at a target time.
- `CurveEditor.RemoveKeysRedoThenUndoTimes`: restores the keyframe times, not the values, on curves of any kind. A non-parametric knob keys its current value when a key is re-added. On parametric curves `CurveEditor.RemoveKeysRedoThenUndoParametric` restores the curve exactly.
- The status checks `assert(st == Natron::StatOK)` after `addControlPoint` and `deleteControlPoint` (Gui/CurveEditorUndoRedo.cpp:46, 54, 95 and 104) are not errors in the model. `Parametric_Knob` is not part of this model. Adding at a time that already holds a key overwrites it, as `setKeyframe` does (`Keyframes.SetKeyframe`, `CurveEditor.AddKey`). Deleting at a time that holds no key changes nothing (`Keyframes.DeleteKeyframe`, `CurveEditor.RemoveKeys`), where the source would pass index -1 to `deleteControlPoint` and fail the assertion.
- `knobValue`: the value a non-parametric knob keys when `setKeyframe` re-adds a key (Gui/CurveEditorUndoRedo.cpp:48 and 97) is a parameter. It is one fixed function of curve and time for a whole command. In the source it is the knob's value at the moment of each call, which can depend on keys set earlier in the same loop.
- `MainWindow.UpdateRecentFileActions`: requires exactly five actions, which the window creates at start-up.
- `CurveEditor.Move`, and through it `CurveEditor.Redo` and `CurveEditor.Undo`: after a completed move they rebuild the selection by looking each key up at its own visit position. This is the corrected pairing of the finding below, not the one at Gui/CurveEditorUndoRedo.cpp:186-197. `CurveEditor.MoveAsWritten` models the source's pairing, and the two agree on the curves.

## Findings

| source | as written | input that shows it | evidently intended | confidence | as-written member | corrected member |
|---|---|---|---|---|---|---|
| Gui/CurveEditorUndoRedo.cpp:186-197 | For dt >= 0 the new key indexes are recorded back to front, but the selection is rebuilt pairing the i-th selected key with the i-th recorded index. | Keys on curve 1 at t=0 and on curve 2 at t=1; curve 2 also holds t=0; dt=1, dv=0. The rebuilt selection is {(curve 2, key at t=0)}, a key that never moved. | Each key is looked up at the index its own move recorded, selecting {(curve 1, t=1), (curve 2, t=2)}. | not executed | CurveEditor.SelectionAsWrittenLosesMovedKeys | CurveEditor.MoveSelectsMovedKeys |
