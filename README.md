# Blackboard property panel of the shader graph editor

This project models `BlackboardProvider`, the property panel ("blackboard") of
Unity's shader graph editor, and proves properties of the model. The panel has
three parts:

- **Path label** (`path_label.dfy`, module `PathLabel`). The subtitle shows the
  graph's path. `FormatPath` shows an em dash for the empty path.
  `SanitizePath` cleans a typed path: it splits on `/`, trims every segment
  with C#'s `string.Trim`, drops blank segments and joins the rest with `/`.
  Both are pure functions. The lemmas prove that the result is well-formed:
  no white space at either end, and no leading, trailing or doubled `/`.
  They also prove that segments keep their order, that exactly the blank
  segments are dropped (every other trimmed segment is kept as often as it
  occurs), that the well-formed paths are exactly the fixed points, and that
  sanitising twice gives the same result as once.
- **Inline path editor** (`path_edit.dfy`, module `PathEdit`). A double left
  click swaps the label for a text field. Escape sets the cancel flag.
  Escape, Return and keypad Enter blur the field, and the focus-out commits.
  Each handler is a transition function on an `EditState` value.
- **Row registry and section** (`blackboard_provider.dfy`, module `Blackboard`).
  Class `BlackboardProvider` holds:
  - the dictionary of rows by property guid (a `map`);
  - the section's children in order (a `seq` of guids);
  - the pending expansion states and the session store;
  - the hover selection and the set of views marked "hovered";
  - the six fields of the path editor.

  Its methods follow the C# handlers statement by statement.
  - `AddProperty` ignores a guid that already has a row. Otherwise it
    appends or inserts the new row, and throws `ArgumentOutOfRange` past the
    end of the section.
  - `HandleGraphChanges` runs four steps: remove rows, add rows, save
    expansion states, and rebuild the section on a move. Each step is its
    own method with its own loop; `FinishReconcile` runs the last two and
    the clearing of the pending states.
  - Hover, drag, rename, move and expand change the state the C# code
    changes.

  The editor's handlers are proved against the `PathEdit` transition
  functions: each method's `ensures` says the new `PathEditState()` is the
  transition function applied to the old one.

Modelling conventions:

- The graph's properties are objects of class `ShaderProperty`, whose display
  name and exposure flag the panel writes.
- The graph's lists (`graphInputs`, `removedGraphInputs`, `addedGraphInputs`,
  whether anything moved) and the graph view's node views are parameters.
- `m_Graph.SanitizePropertyName` is a function parameter.
- Undo registration, `AddShaderProperty`, `MoveShaderProperty`, `DirtyNodes`
  and `OpenTextEditor` are appended to a ghost log of host calls.
- `SessionState` is a `map<Guid, bool>`.
- A dictionary miss (`KeyNotFoundException`) or an insertion past the end
  (`ArgumentOutOfRangeException`) is returned as `Threw(...)` in an
  `Outcome`. Each method that can throw states the panel's state at the
  throw point:
  - `AddProperty`, `PlaceNewRow` and `AddGraphProperty` leave the panel as
    it was.
  - `AddRows` and `HandleGraphChanges` throw at some added property j
    (`ThrewAt`): the properties before j have their built rows, the other
    rows are as they were, the section is `AddAll` over the properties
    before j, placing j's row is what fails, and nothing is saved to the
    session store.
  - `RebuildSection` leaves the section holding the graph's guids up to the
    first one without a row.

## Model

| member | source | states |
|---|---|---|
| PathLabel.Trim | com.unity.shadergraph/Editor/Drawing/Blackboard/BlackboardProvider.cs:173 | `string.Trim` leaves no `char.IsWhiteSpace` character at either end and never lengthens the string |
| PathLabel.TrimSlice | com.unity.shadergraph/Editor/Drawing/Blackboard/BlackboardProvider.cs:173 | string.Trim keeps one slice of the input, the slice starting after the leading white space and as long as Trim(s); everything before the slice and everything after it is white space |
| PathLabel.TrimAddsNothing | com.unity.shadergraph/Editor/Drawing/Blackboard/BlackboardProvider.cs:173 | trimming never brings a character into a string that did not contain it |
| PathLabel.TrimOfTrimmed | com.unity.shadergraph/Editor/Drawing/Blackboard/BlackboardProvider.cs:173 | trimming a string without white space at its ends returns it unchanged |
| PathLabel.Split | com.unity.shadergraph/Editor/Drawing/Blackboard/BlackboardProvider.cs:169 | `Split('/')` yields at least one piece and no piece contains the separator |
| PathLabel.Join | com.unity.shadergraph/Editor/Drawing/Blackboard/BlackboardProvider.cs:180 | `string.Join` of no parts is empty and of one part is that part |
| PathLabel.JoinSplit | com.unity.shadergraph/Editor/Drawing/Blackboard/BlackboardProvider.cs:169-180 | joining the pieces of a split with the same separator gives back the string |
| PathLabel.SplitJoin | com.unity.shadergraph/Editor/Drawing/Blackboard/BlackboardProvider.cs:169-180 | splitting a join of separator-free parts gives back the parts |
| PathLabel.TrimAll | com.unity.shadergraph/Editor/Drawing/Blackboard/BlackboardProvider.cs:171-173 | one trimmed piece per split piece, at the same position |
| PathLabel.DropBlank | com.unity.shadergraph/Editor/Drawing/Blackboard/BlackboardProvider.cs:174-177 | the kept strings are all non-empty and all come from the input |
| PathLabel.DropBlankKeepsOrder | com.unity.shadergraph/Editor/Drawing/Blackboard/BlackboardProvider.cs:171-178 | the kept strings are a subsequence of the input: relative order is kept |
| PathLabel.DropBlankKeeps | com.unity.shadergraph/Editor/Drawing/Blackboard/BlackboardProvider.cs:174-177 | every non-empty string of the input is kept |
| PathLabel.DropBlankCounts | com.unity.shadergraph/Editor/Drawing/Blackboard/BlackboardProvider.cs:174-177 | dropping blanks removes every empty string and keeps every other string exactly as often as it occurs |
| PathLabel.DropBlankOfNonBlank | com.unity.shadergraph/Editor/Drawing/Blackboard/BlackboardProvider.cs:174-177 | when no string is empty, nothing is dropped |
| PathLabel.CleanSegments | com.unity.shadergraph/Editor/Drawing/Blackboard/BlackboardProvider.cs:171-178 | the loop body of SanitizePath over all split pieces: at most one segment per piece and no empty segment; which pieces survive and in what order is carried by CleanSegmentsKeepOrder, CleanSegmentsKeepNonBlank and CleanSegmentsCounts |
| PathLabel.CleanSegmentsClean | com.unity.shadergraph/Editor/Drawing/Blackboard/BlackboardProvider.cs:171-178 | every segment SanitizePath keeps is trimmed and, like the split pieces, free of `/` |
| PathLabel.CleanSegmentsOfClean | com.unity.shadergraph/Editor/Drawing/Blackboard/BlackboardProvider.cs:171-178 | the trim-and-drop loop leaves segments that are already non-empty and trimmed unchanged |
| PathLabel.CleanSegmentsKeepOrder | com.unity.shadergraph/Editor/Drawing/Blackboard/BlackboardProvider.cs:171-178 | the kept segments are the trimmed pieces in their original relative order |
| PathLabel.CleanSegmentsKeepNonBlank | com.unity.shadergraph/Editor/Drawing/Blackboard/BlackboardProvider.cs:171-178 | only pieces that are blank after trimming are dropped |
| PathLabel.CleanSegmentsCounts | com.unity.shadergraph/Editor/Drawing/Blackboard/BlackboardProvider.cs:171-178 | the kept segments are the trimmed pieces with every blank one removed, each other one kept as often as it occurs |
| PathLabel.JoinWellFormed | com.unity.shadergraph/Editor/Drawing/Blackboard/BlackboardProvider.cs:180 | joining non-empty, trimmed, `/`-free segments with `/` gives a path with no surrounding white space and no leading, trailing or doubled `/` |
| PathLabel.SplitWellFormed | com.unity.shadergraph/Editor/Drawing/Blackboard/BlackboardProvider.cs:169 | splitting a non-empty well-formed path gives non-empty, trimmed segments |
| PathLabel.SanitizePath | com.unity.shadergraph/Editor/Drawing/Blackboard/BlackboardProvider.cs:167-181 | defines the sanitiser as Join of CleanSegments of Split with `/`; its properties are the lemmas of the next rows: well-formed results (SanitizePathWellFormed), well-formed paths as its fixed points, idempotence and the segments of the result |
| PathLabel.SanitizePathWellFormed | com.unity.shadergraph/Editor/Drawing/Blackboard/BlackboardProvider.cs:167-181 | every sanitised path is well-formed: trimmed, never starts, ends or doubles `/`, and no segment has white space at its ends |
| PathLabel.SanitizeEmpty | com.unity.shadergraph/Editor/Drawing/Blackboard/BlackboardProvider.cs:167-181 | the empty path sanitises to the empty path |
| PathLabel.SanitizeWellFormedUnchanged | com.unity.shadergraph/Editor/Drawing/Blackboard/BlackboardProvider.cs:167-181 | a well-formed path comes out of SanitizePath unchanged |
| PathLabel.SanitizePathFixedPoints | com.unity.shadergraph/Editor/Drawing/Blackboard/BlackboardProvider.cs:167-181 | SanitizePath returns its input exactly when the input is well-formed (both directions) |
| PathLabel.SanitizePathIdempotent | com.unity.shadergraph/Editor/Drawing/Blackboard/BlackboardProvider.cs:167-181 | sanitising a sanitised path changes nothing |
| PathLabel.SanitizePathSegments | com.unity.shadergraph/Editor/Drawing/Blackboard/BlackboardProvider.cs:167-181 | the result is empty exactly when every segment is blank; otherwise splitting it on `/` gives exactly the kept segments |
| PathLabel.FormatPath | com.unity.shadergraph/Editor/Drawing/Blackboard/BlackboardProvider.cs:160-165 | the label is never empty, equals a non-empty path, and is the em dash exactly for the empty path or the em dash itself |
| PathLabel.FormatPathCollision | com.unity.shadergraph/Editor/Drawing/Blackboard/BlackboardProvider.cs:160-165 | two paths show the same label exactly when they are equal or are the empty path and the em dash |
| PathEdit.StartEditing | com.unity.shadergraph/Editor/Drawing/Blackboard/BlackboardProvider.cs:105-125 | the field becomes visible holding the label's text, the label is hidden, and path and cancel flag are untouched |
| PathEdit.MouseDown | com.unity.shadergraph/Editor/Drawing/Blackboard/BlackboardProvider.cs:96-103 | an edit starts, and the default action is prevented, exactly on a double click of the left button; any other click changes nothing |
| PathEdit.KeyDown | com.unity.shadergraph/Editor/Drawing/Blackboard/BlackboardProvider.cs:127-142 | the field is blurred exactly on Escape, Return or keypad Enter; the cancel flag becomes set exactly on Escape (or stays set); nothing else changes |
| PathEdit.Finished | com.unity.shadergraph/Editor/Drawing/Blackboard/BlackboardProvider.cs:144-158 | after a commit the label is visible, the field hidden, the cancel flag cleared and the label shows FormatPath of the stored path |
| PathEdit.CommitStoresSanitised | com.unity.shadergraph/Editor/Drawing/Blackboard/BlackboardProvider.cs:149-156 | a commit that was not cancelled and changed the text stores the sanitised text, which is well-formed, and the label shows it |
| PathEdit.CancelStoresRawText | com.unity.shadergraph/Editor/Drawing/Blackboard/BlackboardProvider.cs:127-158 | after Escape the graph stores whatever was typed, unsanitised: Escape does not restore the previous path |
| PathEdit.UntouchedCommitStoresLabel | com.unity.shadergraph/Editor/Drawing/Blackboard/BlackboardProvider.cs:105-158 | opening the editor and pressing Return without typing stores the label's text, FormatPath of the old path |
| PathEdit.PlaceholderLeaks | com.unity.shadergraph/Editor/Drawing/Blackboard/BlackboardProvider.cs:144-163 | an empty path, opened and committed unchanged, becomes the em dash |
| PathEdit.CancelBreaksWellFormed | com.unity.shadergraph/Editor/Drawing/Blackboard/BlackboardProvider.cs:149-155 | a cancelled edit can replace a well-formed path with one that is not |
| PathEdit.FinishedIntended | com.unity.shadergraph/Editor/Drawing/Blackboard/BlackboardProvider.cs:144-158 | the corrected commit ends in the settled label state, like the original |
| PathEdit.IntendedCancelRestores | com.unity.shadergraph/Editor/Drawing/Blackboard/BlackboardProvider.cs:127-158 | under the corrected commit, Escape restores the whole prior state whatever was typed |
| PathEdit.IntendedUntouchedCommitKeepsPath | com.unity.shadergraph/Editor/Drawing/Blackboard/BlackboardProvider.cs:105-158 | under the corrected commit, an untouched edit keeps the stored path, the empty one included |
| PathEdit.IntendedKeepsWellFormed | com.unity.shadergraph/Editor/Drawing/Blackboard/BlackboardProvider.cs:144-158 | under the corrected commit a well-formed stored path stays well-formed whatever is typed |
| Blackboard.IndexOfProperty | com.unity.shadergraph/Editor/Drawing/Blackboard/BlackboardProvider.cs:235 | the graph index of an added property: the position of its first occurrence, or -1 exactly when it is absent |
| Blackboard.Without | com.unity.shadergraph/Editor/Drawing/Blackboard/BlackboardProvider.cs:229 | removing a row from the section keeps exactly the other rows, in their relative order, without repetitions if there were none |
| Blackboard.Excluding | com.unity.shadergraph/Editor/Drawing/Blackboard/BlackboardProvider.cs:224-232 | the section without the rows of a set of guids keeps exactly the other rows |
| Blackboard.ExcludingKeepsOrder | com.unity.shadergraph/Editor/Drawing/Blackboard/BlackboardProvider.cs:224-232 | the rows that stay keep their relative order |
| Blackboard.ExcludingWithout | com.unity.shadergraph/Editor/Drawing/Blackboard/BlackboardProvider.cs:224-232 | removing one more row, before or after removing a set, is removing it with the set |
| Blackboard.InsertAt | com.unity.shadergraph/Editor/Drawing/Blackboard/BlackboardProvider.cs:280 | `Insert(index, row)` lengthens the section by one and puts the row at the index |
| Blackboard.WithoutInsertAt | com.unity.shadergraph/Editor/Drawing/Blackboard/BlackboardProvider.cs:280 | removing an inserted row gives back the section: the other rows keep their relative order |
| Blackboard.WithoutAbsent | com.unity.shadergraph/Editor/Drawing/Blackboard/BlackboardProvider.cs:227-231 | removing a row the section does not show changes nothing |
| Blackboard.PlaceRow | com.unity.shadergraph/Editor/Drawing/Blackboard/BlackboardProvider.cs:275-281 | where AddProperty puts a new row: a negative index means the row count, the row count appends, a smaller index inserts; a failure is always ArgumentOutOfRange and a success lengthens the section by one and shows the row; order and position are carried by PlaceRowKeepsOrder, PlaceRowDistinct and PlaceRowPosition |
| Blackboard.PlaceRowKeepsOrder | com.unity.shadergraph/Editor/Drawing/Blackboard/BlackboardProvider.cs:275-280 | a successful placement adds exactly the new row, lengthens the section by one and keeps every other row in its relative order |
| Blackboard.PlaceRowDistinct | com.unity.shadergraph/Editor/Drawing/Blackboard/BlackboardProvider.cs:275-280 | placing a row whose guid is not yet shown in a section without repetitions leaves the section without repetitions |
| Blackboard.PlaceRowPosition | com.unity.shadergraph/Editor/Drawing/Blackboard/BlackboardProvider.cs:275-280 | when the section shows every row, placement succeeds exactly for index <= Count, and the row lands at the index, -1 meaning after the last row |
| Blackboard.ReferencingViews | com.unity.shadergraph/Editor/Drawing/Blackboard/BlackboardProvider.cs:318-327 | the views whose property node reads the guid are exactly the selected ones, each of them a view of the graph, in the graph view's order (a subsequence of the views) |
| Blackboard.ScanReferencing | com.unity.shadergraph/Editor/Drawing/Blackboard/BlackboardProvider.cs:318-327 | the mouse-enter loop collects exactly the referencing views, in order, and their identities |
| Blackboard.GetBool | com.unity.shadergraph/Editor/Drawing/Blackboard/BlackboardProvider.cs:283 | `SessionState.GetBool`: the stored flag for the guid, or the default when the store holds none |
| Blackboard.RowFor | com.unity.shadergraph/Editor/Drawing/Blackboard/BlackboardProvider.cs:261-265 | defines the row AddProperty builds: the property, its name as field text, its type as type text, the exposed icon exactly when `generatePropertyBlock` is set, and the given expansion; AddProperty, AddGraphProperty, the constructor and BuiltRows state their rows through it |
| Blackboard.BuiltRows | com.unity.shadergraph/Editor/Drawing/Blackboard/BlackboardProvider.cs:234-235 | the rows the second reconciliation loop builds for the added properties: one per property, in order, each RowFor the property expanded as the session store says (expanded when it says nothing) |
| Blackboard.AddAll | com.unity.shadergraph/Editor/Drawing/Blackboard/BlackboardProvider.cs:234-235 | the section the second reconciliation loop builds: a property with a row is skipped, any other is placed where PlaceRow says for its graph index with the registry grown by one, and the first placement that throws ends it; a failure is always ArgumentOutOfRange |
| Blackboard.AddAllStep | com.unity.shadergraph/Editor/Drawing/Blackboard/BlackboardProvider.cs:234-235 | AddAll from position n is the skip, the throw or the placement of the property at n followed by AddAll of the rest |
| Blackboard.AddAllPlaced | com.unity.shadergraph/Editor/Drawing/Blackboard/BlackboardProvider.cs:235 | a completed AddProperty of the property at n leaves the rest of AddAll to do from the new registry and section |
| Blackboard.AddAllThrew | com.unity.shadergraph/Editor/Drawing/Blackboard/BlackboardProvider.cs:235 | an AddProperty of the property at n that throws throws AddAll's exception |
| Blackboard.AddAllSnoc | com.unity.shadergraph/Editor/Drawing/Blackboard/BlackboardProvider.cs:234-235 | folding one more added property onto a successful AddAll skips it when its guid is already known, and otherwise places it with the registry's size counting every guid seen so far |
| Blackboard.AddAllPrefixStep | com.unity.shadergraph/Editor/Drawing/Blackboard/BlackboardProvider.cs:235 | after the loop's AddProperty of the property at n, the section is AddAll over the first n + 1 added properties, which is how ThrewAt and AddingAt pin the section |
| Blackboard.ReconciledSection | com.unity.shadergraph/Editor/Drawing/Blackboard/BlackboardProvider.cs:222-235 | the section HandleGraphChanges builds when nothing moved: AddAll of the added properties over the registry and section left after the removed guids are gone |
| Blackboard.NewRowsStep | com.unity.shadergraph/Editor/Drawing/Blackboard/BlackboardProvider.cs:235 | one AddProperty keeps every new row equal to the row built for the first added property with its guid |
| Blackboard.AddRowStep | com.unity.shadergraph/Editor/Drawing/Blackboard/BlackboardProvider.cs:235 | one completed AddProperty takes the loop's state after n added properties (AddedUpTo, the built rows, the AddAll still to do) to its state after n + 1 |
| Blackboard.BlackboardProvider.constructor | com.unity.shadergraph/Editor/Drawing/Blackboard/BlackboardProvider.cs:57-82 | one row per graph property, in the graph's order, each showing its property's name, type and exposure and expanded as the session store says (expanded when it says nothing); nothing hovered, no host call, label showing the subtitle |
| Blackboard.BlackboardProvider.AddInitialRows | com.unity.shadergraph/Editor/Drawing/Blackboard/BlackboardProvider.cs:78-80 | the constructor's AddProperty loop leaves the section equal to the graph's guids and files under each guid the row built for its property, expanded as the session store says |
| Blackboard.BlackboardProvider.AppendInitialRow | com.unity.shadergraph/Editor/Drawing/Blackboard/BlackboardProvider.cs:79-80 | one AddProperty of the constructor appends the next property's row, built for it and expanded as the session store says, and keeps the earlier rows |
| Blackboard.BlackboardProvider.AddProperty | com.unity.shadergraph/Editor/Drawing/Blackboard/BlackboardProvider.cs:253-292 | a guid with a row changes nothing; otherwise the name is sanitised when creating and `generatePropertyBlock` is never written, the row is placed where PlaceRow says (or ArgumentOutOfRange leaves the panel as it was), the registry grows by one entry mapping the guid to RowFor the property, expanded as the session says or on create, and creating logs undo, add and open-editor |
| Blackboard.BlackboardProvider.AddGraphProperty | com.unity.shadergraph/Editor/Drawing/Blackboard/BlackboardProvider.cs:253-283 | AddProperty without create: a guid with a row changes nothing; otherwise the row lands where PlaceRow says and the guid is filed with RowFor the property, expanded as the session store said before the call, or ArgumentOutOfRange leaves the panel as it was; no host call |
| Blackboard.BlackboardProvider.PlaceNewRow | com.unity.shadergraph/Editor/Drawing/Blackboard/BlackboardProvider.cs:274-283 | the new row goes where PlaceRow says and is filed under its guid; an out-of-range insertion throws and changes nothing |
| Blackboard.BlackboardProvider.SessionFlag | com.unity.shadergraph/Editor/Drawing/Blackboard/BlackboardProvider.cs:283 | `SessionState.GetBool` on this panel's session store: GetBool of the store |
| Blackboard.BlackboardProvider.GetBlackboardRow | com.unity.shadergraph/Editor/Drawing/Blackboard/BlackboardProvider.cs:308-311 | the lookup succeeds exactly for a guid with a row, which shows that guid's property, and throws KeyNotFound otherwise |
| Blackboard.BlackboardProvider.OnExpanded | com.unity.shadergraph/Editor/Drawing/Blackboard/BlackboardProvider.cs:294-297 | the row's flipped expansion state is recorded as pending; a property without a row throws and records nothing |
| Blackboard.BlackboardProvider.EditTextRequested | com.unity.shadergraph/Editor/Drawing/Blackboard/BlackboardProvider.cs:208-220 | an empty or unchanged name changes nothing; otherwise the sanitised name is written to the property and to the row's field, after an undo step and followed by dirtying the property nodes; the exposure flag is never written |
| Blackboard.BlackboardProvider.MoveItemRequested | com.unity.shadergraph/Editor/Drawing/Blackboard/BlackboardProvider.cs:183-190 | an element without a property is ignored; otherwise an undo step and a move request are logged |
| Blackboard.BlackboardProvider.HandleGraphChanges | com.unity.shadergraph/Editor/Drawing/Blackboard/BlackboardProvider.cs:222-251 | removed guids lose their rows (absent ones are ignored), the other rows are untouched, and each added property whose guid had no row left gains RowFor it expanded as the session store said before the call (the first property with that guid wins); without a move the section is exactly ReconciledSection, so the rows that stay keep their relative order and each new row lands where PlaceRow put it; on a move the section equals the graph's order; pending expansion states are saved and then emptied; ReconciledSection fails exactly when the call throws ArgumentOutOfRange, with that exception, leaving the state ThrewAt describes with nothing saved; on a move, a graph property without a row throws KeyNotFound for it, the section then holding the graph's guids before it |
| Blackboard.BlackboardProvider.RemoveAndAddRows | com.unity.shadergraph/Editor/Drawing/Blackboard/BlackboardProvider.cs:224-235 | the first two loops together: completes exactly when ReconciledSection succeeds, the section then being its value and the registry reconciled with the built rows; otherwise it throws ReconciledSection's ArgumentOutOfRange at some added property j, the rows of the properties before j being the built rows and the section AddAll over them from the first loop's section (ThrewAt) |
| Blackboard.RemoveThenAdd | com.unity.shadergraph/Editor/Drawing/Blackboard/BlackboardProvider.cs:224-235 | removing and then adding leaves the registry and the section reconciled: the removed rows gone, the added ones present with the rows built for them, the remaining rows untouched and in order |
| Blackboard.BlackboardProvider.RemoveRows | com.unity.shadergraph/Editor/Drawing/Blackboard/BlackboardProvider.cs:224-232 | the registry loses exactly the removed guids, and the section is the old section without their rows, the others in their order |
| Blackboard.BlackboardProvider.RemoveRow | com.unity.shadergraph/Editor/Drawing/Blackboard/BlackboardProvider.cs:226-231 | the row of one guid, if any, leaves the registry and the section; an absent guid changes nothing |
| Blackboard.BlackboardProvider.AddRows | com.unity.shadergraph/Editor/Drawing/Blackboard/BlackboardProvider.cs:234-235 | completes exactly when AddAll from the old registry and section succeeds, the section then being AddAll's value; every added property has a row, rows already there are untouched, each new row is the row built for the first added property with its guid, and taking the new rows out of the section gives back the old section; otherwise it throws AddAll's ArgumentOutOfRange at some added property j (ThrewAt): the rows of the properties before j are the built rows, and the section is AddAll over the properties before j |
| Blackboard.BlackboardProvider.AddRow | com.unity.shadergraph/Editor/Drawing/Blackboard/BlackboardProvider.cs:235 | one AddProperty places a new property's row where PlaceRow puts it for the property's graph index (a property with a row leaves the section alone) and takes the loop's state from n to n + 1 (AddingAt); or it throws AddAll's exception with rows and section unchanged, so that the loop's state at n is exactly the throw state ThrewAt(n) |
| Blackboard.BlackboardProvider.SaveExpandedStates | com.unity.shadergraph/Editor/Drawing/Blackboard/BlackboardProvider.cs:237-240 | every pending expansion state is written to the session store, overriding what was there |
| Blackboard.BlackboardProvider.FinishReconcile | com.unity.shadergraph/Editor/Drawing/Blackboard/BlackboardProvider.cs:237-250 | the last steps of HandleGraphChanges: pending states saved, the section rebuilt in the graph's order on a move and left alone otherwise, pending states cleared; only the move can throw, KeyNotFound with the pending states kept |
| Blackboard.BlackboardProvider.RebuildSection | com.unity.shadergraph/Editor/Drawing/Blackboard/BlackboardProvider.cs:242-249 | succeeds exactly when every graph property has a row, and then the section is the graph's order; otherwise KeyNotFound names the first graph guid without a row, and the section holds the graph's guids before it |
| Blackboard.BlackboardProvider.OnMouseHover | com.unity.shadergraph/Editor/Drawing/Blackboard/BlackboardProvider.cs:313-338 | entering appends exactly the referencing views to the selection and marks them hovered; leaving with a live selection unmarks every selected view and empties it; leaving with none changes nothing |
| Blackboard.BlackboardProvider.SelectReferencing | com.unity.shadergraph/Editor/Drawing/Blackboard/BlackboardProvider.cs:316-329 | the selection gains exactly the referencing views, in order, and they are marked hovered |
| Blackboard.BlackboardProvider.OnDragUpdatedEvent | com.unity.shadergraph/Editor/Drawing/Blackboard/BlackboardProvider.cs:84-94 | a drag empties the selection and unmarks every view that was selected |
| Blackboard.BlackboardProvider.ClearSelection | com.unity.shadergraph/Editor/Drawing/Blackboard/BlackboardProvider.cs:330-337 | every selected view loses the hovered mark, then the selection is emptied |
| Blackboard.BlackboardProvider.OnMouseDownEvent | com.unity.shadergraph/Editor/Drawing/Blackboard/BlackboardProvider.cs:96-103 | the editor's state follows PathEdit.MouseDown, and so does the prevented default |
| Blackboard.BlackboardProvider.StartEditingPath | com.unity.shadergraph/Editor/Drawing/Blackboard/BlackboardProvider.cs:105-125 | the editor's state follows PathEdit.StartEditing |
| Blackboard.BlackboardProvider.OnPathTextFieldKeyPressed | com.unity.shadergraph/Editor/Drawing/Blackboard/BlackboardProvider.cs:127-142 | the editor's state and the blur request follow PathEdit.KeyDown |
| Blackboard.BlackboardProvider.OnEditPathTextFinished | com.unity.shadergraph/Editor/Drawing/Blackboard/BlackboardProvider.cs:144-158 | the editor's state follows PathEdit.Finished: label shown, field hidden, flag cleared, label equal to FormatPath of the stored path |

## Left out

- `AddItemRequested` (the add menu) is host menu UI. Its effect is `AddProperty(new ShaderProperty(type), true)`, which is modelled. The property types the menu offers are the `PropertyType` datatype.
- `StartEditingPath`'s layout, styling, focus and select-all are host toolkit calls. Only its visibility and text writes are modelled.
- `Blur()` is not modelled as an event. The key handler returns whether it asked for a blur. The focus-out it leads to is the separate `OnEditPathTextFinished` call.
- `m_Graph.SanitizePropertyName` is not part of this model. It is an uninterpreted function parameter (one argument in `AddProperty`, two in `EditTextRequested`).
- `DirtyNodes` (`OnEnable`, `Dirty`), `RegisterCompleteObjectUndo`, `AddShaderProperty`, `MoveShaderProperty` and `OpenTextEditor` are recorded only as entries of the ghost host log. Their effects belong to the host.
- `SessionState` is a `map<Guid, bool>`. The guid-to-string key conversion is dropped.
- Blackboard.BlackboardProvider.OnExpanded: `m_ExpandedProperties` is keyed by `ShaderProperty` objects in C#; the model keys it by the property's guid. Two distinct properties with the same guid are therefore not told apart.
- Blackboard.BlackboardProvider.OnExpanded: the host's expand button toggles `row.expanded` itself after the trickle-down handler runs; that toggle is host toolkit behaviour and is not modelled, so `rows[g].expanded` keeps its value until the next reconciliation. Two clicks before a reconciliation therefore both record the flip of the reconciled state in the model, where in C# the second click records the flip of the state the first click left, that is, the original state.
- Rows, fields, pills and icons are reduced to `BlackboardRow` values: field text, type text, exposed icon and expansion. Callback registration on the pill and the expand button is wiring, not state.
- `graph.graphInputs.OfType<ShaderProperty>()` is taken as a sequence of `ShaderProperty`. Other kinds of graph input are not modelled.
- `GetFirstAncestorOfType<MaterialGraphView>()` and `graphView.nodes` are not modelled. The hover handler takes the node views as a sequence of `NodeView` values.
- `m_Graph.GetShaderPropertyIndex` is not part of this model. It is taken to be `List.IndexOf` over the graph's properties (`IndexOfProperty`).
- Null strings are not modelled. `FormatPath`'s `IsNullOrEmpty` is the empty-string test.
- Strings are sequences of Dafny characters, which are Unicode scalar values; C# strings are UTF-16 code units, so a surrogate pair is one character here. Every character `char.IsWhiteSpace` accepts lies in the Basic Multilingual Plane, so trimming is unaffected. There is no normalisation.
- The commented-out window dragging and resizing code is left out. So are the parameterless constructor and the `assetName`/`blackboard` accessors (host properties).
- Blackboard.BlackboardProvider.OnEditPathTextFinished: writes its five fields in one parallel assignment. The C# writes them one after another, but nothing reads them in between, so the final state is the same.
- `TextureSlotControlView.cs` is not part of this model. It is glue over the host's object field.
- The model follows the code in three places where the panel's documented behaviour differs:
  - Escape is documented to cancel the edit and restore the prior text. The code stores the typed text unsanitised (see Findings).
  - Entering a pill while a selection is live is documented to clear the old highlight first. The code appends to the selection.
  - A rename is documented to dirty the nodes that read the renamed property. `DirtyNodes` dirties every property node.
- Blackboard.BlackboardProvider.constructor: `labelText` starts as the `subTitle` parameter, which the contract leaves unconstrained. In C# the label's first text is whatever `GetBlackboard` (line 62) gave the blackboard, and `GetBlackboard` is not part of this model.
- Blackboard.BlackboardProvider.constructor: requires the graph's property guids to be distinct. A graph that lists one guid twice is excluded; what the panel shows for it is not modelled.
- Blackboard.BlackboardProvider.HandleGraphChanges: requires the graph's property guids to be distinct, for the same reason; the move rebuild of a graph that lists one guid twice is not modelled.

## Findings

| source | as written | input that shows it | evidently intended | confidence | as-written member | corrected member |
|---|---|---|---|---|---|---|
| com.unity.shadergraph/Editor/Drawing/Blackboard/BlackboardProvider.cs:149-156 | the untouched check compares the field's text with the label, which shows the em dash for an empty path, and then stores the field's text | graph path `""`, label `—`; double-click, then Return without typing: the graph's path becomes `—` | an unchanged edit keeps the stored path, so the placeholder never reaches the document | not executed | PathEdit.PlaceholderLeaks | PathEdit.IntendedUntouchedCommitKeepsPath |
| com.unity.shadergraph/Editor/Drawing/Blackboard/BlackboardProvider.cs:149-155 | a cancelled edit skips sanitisation but still stores the field's text | graph path `a`; double-click, type ` a`, Escape: the graph's path becomes ` a`, which is not well-formed | Escape discards the edit and restores the previous path | not executed | PathEdit.CancelBreaksWellFormed | PathEdit.IntendedCancelRestores |
