/** The blackboard subtitle's inline editor: a label that shows the graph's
    path and a text field that replaces it while the user edits. A double
    left click opens the field on the label's text, Escape marks the edit
    cancelled, Escape, Return and keypad Enter ask the host to take focus
    away from the field, and losing focus commits the edit
    (BlackboardProvider.OnMouseDownEvent, StartEditingPath,
    OnPathTextFieldKeyPressed and OnEditPathTextFinished). */
module PathEdit {
  import opened PathLabel

  /** The keys the field's key handler tells apart. */
  datatype KeyCode = Escape | Return | KeypadEnter | OtherKey(code: int)

  /** MouseButton.LeftMouse. */
  const LeftMouse: int := 0

  /** What the subtitle shows and what the graph stores. */
  datatype EditState = EditState(
    labelText: string,
    labelVisible: bool,
    fieldText: string,
    fieldVisible: bool,
    cancelled: bool,
    graphPath: string)

  /** Label mode, settled: the label shows the stored path and no edit is
      pending. */
  predicate Showing(s: EditState)
  {
    s.labelVisible && !s.fieldVisible && !s.cancelled && s.labelText == FormatPath(s.graphPath)
  }

  /** Text-edit mode: the field stands where the label was. */
  predicate Editing(s: EditState)
  {
    !s.labelVisible && s.fieldVisible
  }

  /** StartEditingPath, without its layout: the field appears holding the
      label's text and the label is hidden. */
  function StartEditing(s: EditState): (r: EditState)
    ensures Editing(r)
    ensures r.fieldText == s.labelText
    ensures r.labelText == s.labelText && r.graphPath == s.graphPath && r.cancelled == s.cancelled
  {
    s.(fieldVisible := true, fieldText := s.labelText, labelVisible := false)
  }

  /** The result of a mouse-down on the label: the new state and whether the
      event's default action is prevented. */
  datatype MouseResult = MouseResult(state: EditState, preventDefault: bool)

  /** OnMouseDownEvent: only a double click of the left button starts an edit. */
  function MouseDown(s: EditState, clickCount: int, button: int): (r: MouseResult)
    ensures r.preventDefault <==> (clickCount == 2 && button == LeftMouse)
    ensures r.preventDefault ==> r.state == StartEditing(s)
    ensures !r.preventDefault ==> r.state == s
  {
    if clickCount == 2 && button == LeftMouse then MouseResult(StartEditing(s), true)
    else MouseResult(s, false)
  }

  /** The result of a key press in the field: the new state and whether the
      handler asked the host to blur the field (the host then delivers the
      focus-out that commits the edit). */
  datatype KeyResult = KeyResult(state: EditState, blur: bool)

  predicate EndsEdit(key: KeyCode)
  {
    key == Escape || key == Return || key == KeypadEnter
  }

  /** OnPathTextFieldKeyPressed: Escape sets the cancel flag, Escape, Return
      and keypad Enter blur the field, and every other key changes nothing. */
  function KeyDown(s: EditState, key: KeyCode): (r: KeyResult)
    ensures r.blur <==> EndsEdit(key)
    ensures r.state.cancelled <==> (s.cancelled || key == Escape)
    ensures r.state == s.(cancelled := r.state.cancelled)
  {
    match key
    case Escape => KeyResult(s.(cancelled := true), true)
    case Return => KeyResult(s, true)
    case KeypadEnter => KeyResult(s, true)
    case OtherKey(_) => KeyResult(s, false)
  }

  /** OnEditPathTextFinished, as the code is written: the label comes back and
      the field goes, the graph stores the field's text (sanitised only when
      the edit was not cancelled and the text differs from the label), the
      label shows the stored path and the cancel flag is cleared. */
  function Finished(s: EditState): (r: EditState)
    ensures Showing(r)
  {
    var newPath := if !s.cancelled && s.fieldText != s.labelText then SanitizePath(s.fieldText) else s.fieldText;
    EditState(FormatPath(newPath), true, s.fieldText, false, false, newPath)
  }

  /** A committed edit whose text differs from the label stores a well-formed
      path, and the label shows it. */
  lemma CommitStoresSanitised(s: EditState)
    requires !s.cancelled && s.fieldText != s.labelText
    ensures Finished(s).graphPath == SanitizePath(s.fieldText)
    ensures WellFormedPath(Finished(s).graphPath)
    ensures Finished(s).labelText == FormatPath(SanitizePath(s.fieldText))
  {
    SanitizePathWellFormed(s.fieldText);
  }

  /** Escape does not restore anything: the graph stores the field's text
      exactly as typed, with no sanitisation. */
  lemma CancelStoresRawText(s: EditState, typed: string)
    requires Showing(s)
    ensures Finished(KeyDown(StartEditing(s).(fieldText := typed), Escape).state).graphPath == typed
  {
  }

  /** Opening the editor and pressing Return without typing stores what the
      label showed: the path itself, or the placeholder when the path was
      empty. */
  lemma UntouchedCommitStoresLabel(s: EditState)
    requires Showing(s)
    ensures Finished(KeyDown(StartEditing(s), Return).state).graphPath == FormatPath(s.graphPath)
  {
  }

  /** The placeholder leaks into the document: an empty path, opened and
      committed unchanged, becomes the em dash. */
  lemma PlaceholderLeaks()
    ensures var s := EditState(Placeholder, true, "", false, false, "");
      && Showing(s)
      && Finished(KeyDown(StartEditing(s), Return).state).graphPath == Placeholder
      && Finished(KeyDown(StartEditing(s), Return).state).graphPath != s.graphPath
  {
  }

  /** The commit step as evidently intended: a cancelled edit, or one that
      leaves the label's text alone, keeps the stored path; any other edit
      stores the sanitised text. */
  function FinishedIntended(s: EditState): (r: EditState)
    ensures Showing(r)
  {
    var newPath :=
      if s.cancelled || s.fieldText == s.labelText then s.graphPath
      else SanitizePath(s.fieldText);
    EditState(FormatPath(newPath), true, s.fieldText, false, false, newPath)
  }

  /** Under the intended commit, Escape puts everything back as it was
      before the edit, whatever was typed. */
  lemma IntendedCancelRestores(s: EditState, typed: string)
    requires Showing(s)
    ensures FinishedIntended(KeyDown(StartEditing(s).(fieldText := typed), Escape).state).(fieldText := s.fieldText) == s
  {
  }

  /** Under the intended commit, opening the editor and pressing Return
      without typing keeps the stored path, the empty one included. */
  lemma IntendedUntouchedCommitKeepsPath(s: EditState)
    requires Showing(s)
    ensures FinishedIntended(KeyDown(StartEditing(s), Return).state).graphPath == s.graphPath
  {
  }

  /** Under the intended commit a well-formed stored path stays well-formed,
      whatever the user types and however the edit ends. */
  lemma IntendedKeepsWellFormed(s: EditState)
    requires WellFormedPath(s.graphPath)
    ensures WellFormedPath(FinishedIntended(s).graphPath)
  {
    SanitizePathWellFormed(s.fieldText);
  }

  /** As written, a cancelled edit can store a path that is not well-formed. */
  lemma CancelBreaksWellFormed()
    ensures var s := EditState("a", false, " a", true, true, "a");
      && WellFormedPath(s.graphPath)
      && !WellFormedPath(Finished(s).graphPath)
  {
    var s := EditState("a", false, " a", true, true, "a");
    assert Finished(s).graphPath == " a";
    assert IsWhiteSpace(' ');
  }
}
