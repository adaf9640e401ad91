/** The shortcut editor of the main window (`MainController`): the keys held
    in the recording field, the text it shows, the selected action, and the
    shared list of shortcuts that Add appends to and each card's delete
    button removes from. Saving the list and building the cards are not
    modelled. */
module ShortcutEditor {
  import opened Wrappers
  import opened KeyCodes
  import opened Combo
  import opened SystemActions
  import opened Shortcuts

  /** A shortcut object in the shared list. `Shortcut` does not override
      `equals`, so the list compares its elements by object identity; `ref`
      is that identity. */
  datatype Entry = Entry(ref: nat, shortcut: Shortcut)

  /** The editor's state. `text` is the recording field's content and
      `selection` the action picked in the drop-down; a null shared list
      behaves as the empty one (Add creates it, delete skips it).
      `hasJsonManager` says whether `setDependencies` has supplied the
      `JsonManager`; the application start-up never calls it, so in the
      program as shipped it is false. */
  datatype Editor = Editor(
    held: set<KeyCode>,
    text: Option<string>,
    selection: Option<SystemAction>,
    shortcuts: seq<Entry>,
    hasJsonManager: bool)

  /** Every object appears in the list at most once. */
  predicate DistinctRefs(list: seq<Entry>) {
    forall i, j :: 0 <= i < j < |list| ==> list[i].ref != list[j].ref
  }

  /** Whether some entry of the list is the object `ref`. */
  predicate Contains(list: seq<Entry>, ref: nat) {
    exists i :: 0 <= i < |list| && list[i].ref == ref
  }

  /** The identity `new` gives a shortcut: one no entry of the list has. */
  function FreshRef(list: seq<Entry>): (r: nat)
    ensures forall i :: 0 <= i < |list| ==> list[i].ref < r
  {
    if list == [] then 0
    else
      var rest := FreshRef(list[1..]);
      if rest <= list[0].ref then list[0].ref + 1 else rest
  }

  // ---------------------------------------------------------------------
  // Recording keys (the field's key-pressed and key-released handlers).
  // ---------------------------------------------------------------------

  /** `activeKeys.add`: the key joins the held set; nothing else changes. */
  function PressKey(held: set<KeyCode>, k: KeyCode): (held': set<KeyCode>)
    ensures k in held'
    ensures forall j :: j != k ==> (j in held' <==> j in held)
  {
    held + {k}
  }

  /** `activeKeys.remove`: the key leaves the held set; nothing else changes. */
  function ReleaseKey(held: set<KeyCode>, k: KeyCode): (held': set<KeyCode>)
    ensures k !in held'
    ensures forall j :: j != k ==> (j in held' <==> j in held)
  {
    held - {k}
  }

  /** Releasing a key undoes pressing it when it was not held before, and a
      repeated press (key auto-repeat) changes nothing. */
  lemma ReleaseUndoesPress(held: set<KeyCode>, k: KeyCode)
    ensures k !in held ==> ReleaseKey(PressKey(held, k), k) == held
    ensures PressKey(PressKey(held, k), k) == PressKey(held, k)
  {
  }

  /** The key-pressed handler: record the key, then rewrite the field from
      the whole held set. The selection and the list are untouched. */
  method KeyPressed(ed: Editor, k: KeyCode) returns (ed': Editor)
    ensures ed'.held == PressKey(ed.held, k)
    ensures ed'.text.Some? && IsRecordedText(ed'.held, ed'.text.value)
    ensures ed'.selection == ed.selection && ed'.shortcuts == ed.shortcuts
    ensures ed'.hasJsonManager == ed.hasJsonManager
  {
    var held := PressKey(ed.held, k);
    var text, chosen := UpdateShortcutText(held);
    ed' := ed.(held := held, text := Some(text));
  }

  /** The key-released handler: forget the key but leave the field's text
      as it is, so a finished combination stays on screen. */
  function KeyReleased(ed: Editor, k: KeyCode): (ed': Editor)
    ensures ed'.held == ReleaseKey(ed.held, k)
    ensures ed'.text == ed.text && ed'.selection == ed.selection
    ensures ed'.shortcuts == ed.shortcuts && ed'.hasJsonManager == ed.hasJsonManager
  {
    ed.(held := ReleaseKey(ed.held, k))
  }

  // ---------------------------------------------------------------------
  // Adding a shortcut.
  // ---------------------------------------------------------------------

  /** Add's validation: the text is neither null nor empty and an action
      is selected. */
  predicate CanAdd(ed: Editor) {
    ed.text.Some? && ed.text.value != "" && ed.selection.Some?
  }

  /** `handleAddShortcut`. A rejected request changes nothing. An accepted
      one appends one new object holding the field's text and the selected
      action after the unchanged earlier entries. It then saves the list:
      with a `JsonManager` the save returns and the field, the held set and
      the selection are emptied; without one the save throws a
      NullPointerException and the clean-up after it never runs, so the
      field, the held set and the selection keep their values. */
  function AddShortcut(ed: Editor): (ed': Editor)
    ensures ed.text == None || ed.text == Some("") || ed.selection == None ==> ed' == ed
    ensures CanAdd(ed) ==>
              && |ed'.shortcuts| == |ed.shortcuts| + 1
              && ed'.shortcuts[..|ed.shortcuts|] == ed.shortcuts
              && ed'.shortcuts[|ed.shortcuts|].shortcut == NewShortcut(ed.text, ed.selection)
              && !Contains(ed.shortcuts, ed'.shortcuts[|ed.shortcuts|].ref)
              && ed'.hasJsonManager == ed.hasJsonManager
    ensures CanAdd(ed) && ed.hasJsonManager ==>
              ed'.held == {} && ed'.text == Some("") && ed'.selection.None?
    ensures CanAdd(ed) && !ed.hasJsonManager ==>
              ed'.held == ed.held && ed'.text == ed.text && ed'.selection == ed.selection
  {
    if !CanAdd(ed) then ed
    else
      var entry := Entry(FreshRef(ed.shortcuts), NewShortcut(ed.text, ed.selection));
      var appended := ed.(shortcuts := ed.shortcuts + [entry]);
      if ed.hasJsonManager then appended.(held := {}, text := Some(""), selection := None)
      else appended
  }

  /** Adding keeps every object in the list at most once. */
  lemma AddKeepsRefsDistinct(ed: Editor)
    requires DistinctRefs(ed.shortcuts)
    ensures DistinctRefs(AddShortcut(ed).shortcuts)
  {
  }

  /** With a `JsonManager`, a second Add right after a successful one is
      rejected, because the field was emptied: pressing Add twice stores the
      shortcut once. */
  lemma AddTwiceAddsOnce(ed: Editor)
    requires ed.hasJsonManager
    ensures AddShortcut(AddShortcut(ed)) == AddShortcut(ed)
  {
  }

  /** Without a `JsonManager` (the program as shipped), the field is never
      emptied, so pressing Add twice stores two distinct objects holding the
      same keys and action. */
  lemma AddTwiceWithoutJsonManagerDuplicates(ed: Editor)
    requires CanAdd(ed) && !ed.hasJsonManager
    ensures var twice := AddShortcut(AddShortcut(ed)).shortcuts;
            var n := |ed.shortcuts|;
            && |twice| == n + 2
            && twice[n].shortcut == twice[n + 1].shortcut == NewShortcut(ed.text, ed.selection)
            && twice[n].ref != twice[n + 1].ref
  {
    var once := AddShortcut(ed);
    assert CanAdd(once);
    var n := |ed.shortcuts|;
    assert once.shortcuts[n] == AddShortcut(once).shortcuts[n];
  }

  // ---------------------------------------------------------------------
  // Deleting a shortcut (a card's delete button: `List.remove(Object)`).
  // ---------------------------------------------------------------------

  /** The position of the first entry that is the object `ref`, if any. */
  function FirstIndexOf(list: seq<Entry>, ref: nat): (r: Option<nat>)
    ensures r.None? ==> !Contains(list, ref)
    ensures r.Some? ==> r.value < |list| && list[r.value].ref == ref
    ensures r.Some? ==> forall j :: 0 <= j < r.value ==> list[j].ref != ref
  {
    if list == [] then None
    else if list[0].ref == ref then Some(0)
    else
      match FirstIndexOf(list[1..], ref)
      case None =>
        assert forall i :: 0 < i < |list| ==> list[i] == list[1..][i - 1];
        None
      case Some(i) => Some(i + 1)
  }

  /** `remove(shortcut)`: drops the first entry that is the object `ref` and
      keeps the others in their order; without such an entry the list is
      unchanged. The save that follows the removal throws when there is no
      `JsonManager`, but the removal has already happened. */
  function RemoveShortcut(list: seq<Entry>, ref: nat): (r: seq<Entry>)
    ensures !Contains(list, ref) ==> r == list
    ensures Contains(list, ref) ==>
              var i := FirstIndexOf(list, ref).value;
              && |r| == |list| - 1
              && (forall p :: 0 <= p < i ==> r[p] == list[p])
              && (forall p :: i <= p < |r| ==> r[p] == list[p + 1])
  {
    match FirstIndexOf(list, ref)
    case None => list
    case Some(i) => list[..i] + list[i + 1..]
  }

  /** Removing an object from a list holding each object once leaves no
      entry for it, keeps every other entry, and keeps the others distinct. */
  lemma RemoveFromDistinct(list: seq<Entry>, ref: nat)
    requires DistinctRefs(list)
    ensures DistinctRefs(RemoveShortcut(list, ref))
    ensures !Contains(RemoveShortcut(list, ref), ref)
    ensures forall e :: e in list && e.ref != ref ==> e in RemoveShortcut(list, ref)
    ensures Contains(list, ref) ==> |RemoveShortcut(list, ref)| == |list| - 1
  {
  }

  /** Deleting the shortcut that Add just created gives back the list as it
      was before the Add. */
  lemma {:induction false} RemoveUndoesAdd(ed: Editor)
    requires CanAdd(ed)
    ensures var after := AddShortcut(ed).shortcuts;
            RemoveShortcut(after, after[|after| - 1].ref) == ed.shortcuts
  {
    var after := AddShortcut(ed).shortcuts;
    var n := |ed.shortcuts|;
    var ref := after[n].ref;
    assert forall j :: 0 <= j < n ==> after[j] == ed.shortcuts[j];
    assert FirstIndexOf(after, ref) == Some(n) by {
      var r := FirstIndexOf(after, ref);
      assert Contains(after, ref) by { assert after[n].ref == ref; }
      assert r.Some?;
    }
    assert after[..n] == ed.shortcuts;
  }
}
