/**
 The group rename widget: a state machine over the group's key, the name
 being edited and whether the widget is in editing mode.

 The type banner service decides whether editing may start at all (it may
 show an enterprise-only hint instead); its decision is the parameter
 `editAllowed`. The keyboard event's `preventDefault`/`stopPropagation` and
 the rendering are not modelled.
 */
module GroupEditInPlace {
  import opened Js

  /** The component's fields: the `key` input, the edited `name` and the
      editing flag. */
  datatype Widget = Widget(key: Nullable<string>, name: Nullable<string>, editing: bool)

  /** True for `null`, `undefined` and the empty string. */
  predicate IsBlank(s: Nullable<string>) {
    s == Null || s.value == ""
  }

  /** `startEditing`: enters editing mode when the banner service allows it,
      and otherwise changes nothing. */
  function StartEditing(w: Widget, editAllowed: bool): (r: Widget)
    ensures r.key == w.key && r.name == w.name
    ensures editAllowed ==> r.editing
    ensures !editAllowed ==> r == w
  {
    if editAllowed then w.(editing := true) else w
  }

  /** `ngOnInit`: the name starts as the key, and a group without a name opens
      in editing mode straight away (if the banner service allows it). */
  function Init(key: Nullable<string>, editAllowed: bool): (w: Widget)
    ensures w.key == key && w.name == key
    ensures w.editing <==> IsBlank(key) && editAllowed
  {
    var w := Widget(key, key, false);
    if IsBlank(w.name) then StartEditing(w, editAllowed) else w
  }

  /** `leaveEditingMode`: editing mode is left only when the name holds
      something besides white space; key and name never change. */
  function LeaveEditingMode(w: Widget): (r: Widget)
    ensures r.key == w.key && r.name == w.name
    ensures w.name != Null && |Trim(w.name.value)| > 0 ==> !r.editing
    ensures !(w.name != Null && |Trim(w.name.value)| > 0) ==> r.editing == w.editing
  {
    if w.name != Null && |Trim(w.name.value)| > 0 then w.(editing := false) else w
  }

  /** Editing mode is left (or was not on) exactly when the name has a
      character that is not white space. */
  lemma LeaveEditingModeIff(w: Widget)
    requires w.editing
    ensures !LeaveEditingMode(w).editing <==> w.name != Null && !AllWhiteSpace(w.name.value)
  {
    if w.name != Null {
      TrimEmptyIff(w.name.value);
    }
  }

  /** What `saveEdition` leads to. `Threw` is the `TypeError` raised by
      `.trim()` on a `null` name, after the key was already overwritten;
      `Saved` carries the new state, the value emitted on `onValueChange`
      (if any) and the method's return value. */
  datatype SaveOutcome =
    | Threw(widget: Widget)
    | Saved(widget: Widget, emitted: Nullable<string>, returned: bool)

  /** `saveEdition`: the key takes the name as typed, the name is trimmed,
      editing mode is left if the name is not blank, and the trimmed name is
      emitted when trimming changed it. */
  function SaveEdition(w: Widget): (r: SaveOutcome)
    ensures r.Threw? <==> w.name == Null
    ensures r.Threw? ==> r.widget == w.(key := Null)
    ensures r.Saved? ==> r.widget.key == w.name
    ensures r.Saved? ==> r.widget.name == Value(Trim(w.name.value))
    ensures r.Saved? ==> (r.emitted != Null <==> Trim(w.name.value) != w.name.value)
    ensures r.Saved? && r.emitted != Null ==> r.emitted.value == Trim(w.name.value)
    ensures r.Saved? ==> !r.returned
    ensures r.Saved? ==> r.widget.editing == (w.editing && AllWhiteSpace(w.name.value))
  {
    match w.name
    case Null => Threw(w.(key := w.name))
    case Value(typed) =>
      var trimmed := w.(key := w.name, name := Value(Trim(typed)));
      var left := LeaveEditingMode(trimmed);
      assert left.editing == (w.editing && AllWhiteSpace(typed)) by {
        TrimEmptyIff(typed);
      }
      var emitted := if left.key != left.name then left.name else Null;
      Saved(left, emitted, false)
  }

  /** `reset`: leaves editing mode and puts the key back into the name. */
  function Reset(w: Widget): (r: Widget)
    ensures !r.editing && r.name == r.key && r.key == w.key
  {
    w.(editing := false, name := w.key)
  }

  /** A change is emitted exactly when the typed name starts or ends with
      white space. */
  lemma SaveEmitsIffPadded(w: Widget)
    requires w.name != Null
    ensures SaveEdition(w).emitted != Null <==> !IsTrimmed(w.name.value)
  {
    TrimFixedIff(w.name.value);
  }

  /** Renaming to a name without surrounding white space emits nothing: with
      key "A" and the name edited to "B", saving updates the widget's own key
      to "B" but `onValueChange` stays silent. */
  lemma RenameWithoutPaddingEmitsNothing()
    ensures var r := SaveEdition(Widget(Value("A"), Value("B"), true));
      r.Saved? && r.emitted == Null && r.widget == Widget(Value("B"), Value("B"), false)
  {
    var w := Widget(Value("A"), Value("B"), true);
    assert !IsWhiteSpace("B"[0]);
    TrimFixedIff("B");
    assert Trim("B") == "B";
    var r := SaveEdition(w);
    assert r.widget.key == Value("B") && r.widget.name == Value("B");
    assert !r.widget.editing;
  }

  /** Saving a name made only of white space clears the name, keeps the
      editing flag as it was, and emits the empty string unless the name was
      empty already. */
  lemma SaveBlankName(w: Widget)
    requires w.name != Null && AllWhiteSpace(w.name.value)
    ensures var r := SaveEdition(w);
      r.Saved? && r.widget.name == Value("") && r.widget.editing == w.editing
      && (r.emitted == Value("") <==> w.name.value != "")
  {
    TrimEmptyIff(w.name.value);
  }

  /** Saving twice: the second save emits nothing and makes the key the
      trimmed name. */
  lemma SaveTwice(w: Widget)
    requires w.name != Null
    ensures var first := SaveEdition(w).widget;
      var second := SaveEdition(first);
      second.Saved? && second.emitted == Null && second.widget.key == first.name
      && second.widget.name == first.name
  {
    TrimIdempotent(w.name.value);
  }

  /** The key keeps the name as typed, so resetting after a save brings back
      the untrimmed name. */
  lemma ResetAfterSaveRestoresTyped(w: Widget)
    requires w.name != Null
    ensures Reset(SaveEdition(w).widget).name == w.name
  {
  }

  /** Starting to edit and then leaving editing mode with a name that is not
      blank returns to the state before, out of editing mode. */
  lemma StartThenLeave(w: Widget, editAllowed: bool)
    requires w.name != Null && !AllWhiteSpace(w.name.value)
    ensures LeaveEditingMode(StartEditing(w, editAllowed)) == w.(editing := false)
  {
    TrimEmptyIff(w.name.value);
  }

  /** Resetting discards a started edit, and resetting twice is resetting once. */
  lemma ResetUndoesStart(w: Widget, editAllowed: bool)
    ensures Reset(StartEditing(w, editAllowed)) == Reset(w)
    ensures Reset(Reset(w)) == Reset(w)
  {
  }

  /** Opening a group whose key is the empty string starts in editing mode
      when the banner service allows editing. */
  lemma InitEmptyKeyEdits()
    ensures Init(Value(""), true).editing
    ensures !Init(Value("Details"), true).editing
  {
  }
}
