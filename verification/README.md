# Shortcut Utility: a Dafny model of its key-combination core

Shortcut Utility is a small Windows tray program, written in Java with JavaFX.
The user records a key combination in a text field, picks a system action
(volume up or down, brightness up or down) and adds the pair to a list of
shortcuts. A global keyboard hook listens for events in the background. This
project models the program's deterministic decision logic as pure Dafny
functions and methods, and proves properties about them:

- `Combo` (`combo.dfy`) builds the recorder's text from the set of held
  JavaFX key codes. It writes the prefixes `Ctrl+`, `Alt+`, `Shift+` and `Win+`
  in that fixed order, then the name of one non-modifier key.
  `HashSet` iteration order is left open: the walk picks any unvisited element
  (`:|`). The text is read back by `SplitOnPlus`, which cuts it at every `+`;
  `JoinWithPlus` is its inverse. `ComboTokens` proves that the text
  reads back as exactly the held prefixes, in canonical order, followed by the
  chosen key's name.
- `KeyCodes` (`key_codes.dfy`) holds the key codes. `isModifierKey` is fixed
  to true for CONTROL, ALT, SHIFT, WINDOWS and COMMAND. For every other code
  it is left open (the `modifierClass` flag).
- `ShortcutEditor` (`shortcut_editor.dfy`) models the editor state: held
  keys, field text, selected action and the shared shortcut list. It covers the
  key press and release handlers, Add's validation and append, and the delete
  button's `List.remove`. `Shortcut` does not override `equals`, so the list
  removes an element by object identity. Each entry therefore carries a
  reference number. Add allocates a number no entry has.
- `Shortcuts` (`shortcuts.dfy`) is the `(keys, action)` record, with its
  constructors, getters and setters. A `None` field stands for a Java `null`.
- `SystemActions` (`system_actions.dfy`) holds the four enum constants and
  `fromString`, which upper-cases its argument and then calls `valueOf`. A null
  argument and an unknown name both become `Failure` values. The module also
  holds the guarded ±10 brightness step of the two PowerShell scripts.
- `HotkeyService` (`hotkey_service.dfy`) models the native-hook listener. It
  decides which of the volume handlers a key event calls, and returns that
  decision as a sequence instead of running the handler. The modifier masks
  and key codes are those of the native hook library (JNativeHook):
  `ALT_L_MASK = 1 << 3`, `ALT_R_MASK = 1 << 7`, `VC_U = 0x16`, `VC_D = 0x20`.
  That library is not part of this model.
- `Wrappers` (`wrappers.dfy`) holds `Option`, which stands for null, and
  `Result`, which stands for a call that may throw.

The hook listener hard-wires left-Alt+U and left-Alt+D and never consults
the recorded shortcut list. The toggle button calls `isActive()` and
`stopHook()`, which `GlobalHotkeyService` does not define. Neither is
modelled. The controller's `setDependencies`, which hands it the
`JsonManager`, is never called by the application start-up
(`MainApp.start`). So every save through the controller dereferences a null
`JsonManager`; `Editor.hasJsonManager` records whether one was supplied.

## Model

| member | source | states |
|---|---|---|
| Combo.HeldModifiers | src/main/java/com/myhotkey/shortcututitlity/MainController.java:212-220 | the prefixes written are exactly those whose key is held (Win for WINDOWS or COMMAND), in strictly increasing canonical rank Ctrl < Alt < Shift < Win, so each appears at most once |
| Combo.WritePrefixes | src/main/java/com/myhotkey/shortcututitlity/MainController.java:212-220 | the four sequential membership tests and appends write exactly the held prefixes, each followed by `+`, in canonical order |
| Combo.AppendPrefix | src/main/java/com/myhotkey/shortcututitlity/MainController.java:213-220 | one `append` of a prefix label and `+` extends the text written so far by exactly that modifier, growing it by the label's length plus one |
| Combo.UpdateShortcutText | src/main/java/com/myhotkey/shortcututitlity/MainController.java:209-231 | for any iteration order of the held set, the text is the prefixes followed by the name of a non-modifier member of the set where the walk stopped. When every held key is a modifier, no name is appended |
| Combo.ComboTokens | src/main/java/com/myhotkey/shortcututitlity/MainController.java:209-231 | split at `+`, the text is the held prefix labels in canonical order, then exactly one last token: the chosen key's name, a non-modifier member of the held set, or empty |
| Combo.OnlyModifiersText | src/main/java/com/myhotkey/shortcututitlity/MainController.java:210-230 | when every held key is a modifier, the text is empty exactly when no prefix is held, and otherwise ends with `+` |
| Combo.EmptyHeldGivesEmptyText | src/main/java/com/myhotkey/shortcututitlity/MainController.java:210-230 | an empty held set gives the empty text |
| Combo.WinWrittenOnce | src/main/java/com/myhotkey/shortcututitlity/MainController.java:219-220 | holding both WINDOWS and COMMAND writes `Win` once, as the last prefix |
| ShortcutEditor.PressKey | src/main/java/com/myhotkey/shortcututitlity/MainController.java:121-122 | a pressed key is held afterwards, and every other key keeps its held status |
| ShortcutEditor.ReleaseKey | src/main/java/com/myhotkey/shortcututitlity/MainController.java:127-128 | a released key is not held afterwards, and every other key keeps its held status |
| ShortcutEditor.ReleaseUndoesPress | src/main/java/com/myhotkey/shortcututitlity/MainController.java:121-130 | releasing a key that was not held before its press restores the held set, and a repeated press changes nothing |
| ShortcutEditor.KeyPressed | src/main/java/com/myhotkey/shortcututitlity/MainController.java:121-125 | a press adds the key to the held set and rewrites the field with a text that some iteration order produces for the new set. The selection and the list are unchanged |
| ShortcutEditor.KeyReleased | src/main/java/com/myhotkey/shortcututitlity/MainController.java:127-130 | a release removes the key from the held set. The field text, the selection and the list are unchanged |
| ShortcutEditor.FreshRef | src/main/java/com/myhotkey/shortcututitlity/MainController.java:241 | a newly created shortcut is a different object from every entry already in the list |
| ShortcutEditor.AddShortcut | src/main/java/com/myhotkey/shortcututitlity/MainController.java:233-255 | with null or empty text or no selected action, nothing changes. Otherwise exactly one new object with that text and action is appended after the unchanged earlier entries. With a `JsonManager` the field, held set and selection are then cleared. Without one the save at line 247 throws, so they keep their values |
| ShortcutEditor.AddKeepsRefsDistinct | src/main/java/com/myhotkey/shortcututitlity/MainController.java:241-246 | Add keeps every object in the list at most once |
| ShortcutEditor.AddTwiceAddsOnce | src/main/java/com/myhotkey/shortcututitlity/MainController.java:238-253 | with a `JsonManager`, a second Add straight after the first one is rejected, so the shortcut is stored once |
| ShortcutEditor.AddTwiceWithoutJsonManagerDuplicates | src/main/java/com/myhotkey/shortcututitlity/MainController.java:238-253 | without a `JsonManager`, as shipped, two Adds in a row store two distinct objects holding the same keys and action |
| ShortcutEditor.FirstIndexOf | src/main/java/com/myhotkey/shortcututitlity/MainController.java:103 | the index found is the first entry that is the given object, or none exists |
| ShortcutEditor.RemoveShortcut | src/main/java/com/myhotkey/shortcututitlity/MainController.java:98-106 | delete drops the first entry that is the given object and keeps the others in their order. Without such an entry, the list is unchanged |
| ShortcutEditor.RemoveFromDistinct | src/main/java/com/myhotkey/shortcututitlity/MainController.java:102-103 | on a list holding each object once, delete removes exactly one entry and leaves none for that object. Every other entry survives, still distinct |
| ShortcutEditor.RemoveUndoesAdd | src/main/java/com/myhotkey/shortcututitlity/MainController.java:98-106 | deleting the shortcut that Add just created gives back the list from before the Add |
| Shortcuts.EmptyShortcut | src/main/java/com/myhotkey/shortcututitlity/model/Shortcut.java:9-27 | the no-argument constructor leaves keys and action null |
| Shortcuts.NewShortcut | src/main/java/com/myhotkey/shortcututitlity/model/Shortcut.java:12-27 | the two-argument constructor stores both arguments unvalidated, and the getters return them |
| Shortcuts.SetKeyCombo | src/main/java/com/myhotkey/shortcututitlity/model/Shortcut.java:17-27 | after `setKeyCombo`, `getKeyCombo` returns the new keys and `getAction` the old action |
| Shortcuts.SetAction | src/main/java/com/myhotkey/shortcututitlity/model/Shortcut.java:17-31 | after `setAction`, `getAction` returns the new action and `getKeyCombo` the old keys |
| Shortcuts.SettersLastWriteWins | src/main/java/com/myhotkey/shortcututitlity/model/Shortcut.java:12-31 | writing back a field's own value changes nothing. The last of two writes to a field wins. Setting both fields gives the same as constructing with them |
| SystemActions.Name | src/main/java/com/myhotkey/shortcututitlity/enums/SystemAction.java:7-41 | each constant's name is a non-empty word of upper-case letters and underscores |
| SystemActions.ToUpper | src/main/java/com/myhotkey/shortcututitlity/enums/SystemAction.java:45 | upper-casing keeps the length and maps every character to its upper-case form |
| SystemActions.ValueOf | src/main/java/com/myhotkey/shortcututitlity/enums/SystemAction.java:45 | `valueOf` returns a constant whose name is the argument. It fails exactly when no constant has that name |
| SystemActions.FromString | src/main/java/com/myhotkey/shortcututitlity/enums/SystemAction.java:43-46 | null is an error. Otherwise the result is the constant named by the upper-cased argument, and an error exactly when none is |
| SystemActions.FromStringRoundTrip | src/main/java/com/myhotkey/shortcututitlity/enums/SystemAction.java:7-46 | parsing a constant's name gives back that constant, for each of the four |
| SystemActions.FromStringLowerCase | src/main/java/com/myhotkey/shortcututitlity/enums/SystemAction.java:44-45 | the lower-case spelling of a constant's name also parses to that constant |
| SystemActions.FromStringIgnoresCase | src/main/java/com/myhotkey/shortcututitlity/enums/SystemAction.java:44-45 | two spellings that upper-case alike parse alike |
| SystemActions.FromStringRejectsUnknown | src/main/java/com/myhotkey/shortcututitlity/enums/SystemAction.java:45 | a string naming no constant after upper-casing is the no-such-constant error |
| SystemActions.NamesDistinct | src/main/java/com/myhotkey/shortcututitlity/enums/SystemAction.java:7-41 | the four constants have pairwise different names |
| SystemActions.BrightnessUpStep | src/main/java/com/myhotkey/shortcututitlity/enums/SystemAction.java:29-30 | the up step leaves brightness unchanged or adds exactly 10, and keeps a value in 0..100 inside 0..100 |
| SystemActions.BrightnessDownStep | src/main/java/com/myhotkey/shortcututitlity/enums/SystemAction.java:37-38 | the down step leaves brightness unchanged or subtracts exactly 10, and keeps a value in 0..100 inside 0..100 |
| SystemActions.StepsFollowGuards | src/main/java/com/myhotkey/shortcututitlity/enums/SystemAction.java:29-38 | brightness moves up exactly when it is at most 90, and down exactly when it is at least 10 |
| SystemActions.StepsUndoEachOther | src/main/java/com/myhotkey/shortcututitlity/enums/SystemAction.java:29-38 | a down step undoes an up step from 0..90, and an up step undoes a down step from 10..100 |
| SystemActions.RepeatUpClosedForm | src/main/java/com/myhotkey/shortcututitlity/enums/SystemAction.java:29-30 | from 0..100, n up steps add 10 per step until the next step would pass 100, then stop. From 95, brightness never reaches 100 |
| SystemActions.RepeatDownClosedForm | src/main/java/com/myhotkey/shortcututitlity/enums/SystemAction.java:37-38 | from 0..100, n down steps subtract 10 per step until the next would pass 0, then stay at the value mod 10 |
| HotkeyService.NativeKeyPressed | src/main/java/com/myhotkey/shortcututitlity/GlobalHotkeyService.java:39-51 | at most one handler per press. Volume up fires iff the left-Alt bit is set and the key is U. Volume down fires iff the left-Alt bit is set and the key is D |
| HotkeyService.OnEvent | src/main/java/com/myhotkey/shortcututitlity/GlobalHotkeyService.java:39-85 | one event calls at most one handler, and a release or typed event calls none |
| HotkeyService.Dispatch | src/main/java/com/myhotkey/shortcututitlity/GlobalHotkeyService.java:39-85 | over a stream of events, the number of handler calls never exceeds the number of key presses |
| HotkeyService.OnlyPressesFire | src/main/java/com/myhotkey/shortcututitlity/GlobalHotkeyService.java:77-85 | a stream without key presses calls no handler |
| HotkeyService.NoLeftAltNoAction | src/main/java/com/myhotkey/shortcututitlity/GlobalHotkeyService.java:42-50 | without the left-Alt bit, no key code calls a handler |
| HotkeyService.OnlyLeftAltBitMatters | src/main/java/com/myhotkey/shortcututitlity/GlobalHotkeyService.java:42 | masks that agree on the left-Alt bit select the same handlers for every key code |
| HotkeyService.ExtraModifiersDoNotBlock | src/main/java/com/myhotkey/shortcututitlity/GlobalHotkeyService.java:42 | extra mask bits such as Ctrl or Shift next to left Alt do not stop a match |
| HotkeyService.RightAltDoesNotMatch | src/main/java/com/myhotkey/shortcututitlity/GlobalHotkeyService.java:42 | the right Alt bit alone matches nothing, because only the left-Alt bit is tested |

## Left out

- The effects of the actions are not modelled. These are `Robot` key presses and `mshta`/PowerShell processes, in `SystemAction.execute` and in the service's `handleVolumeUp`/`handelVolumeDown`. The hook listener's decision is returned instead, and the brightness scripts are reduced to their integer step. A handler that is skipped for lack of a `Robot` is not modelled either.
- Native hook registration (`startHook`) is not modelled: it is process plumbing. The source adds the listener even when registration throws.
- Saving the list to JSON, loading it back, and the Jackson deserialisation path (`JsonManager.java`) are not modelled: they are file I/O through a library outside this model.
- Building and removing UI cards, window dragging, the settings dialog, the status badge and the startup-registry commands (`reg add`/`reg delete`/`reg query`) are not modelled: they are UI or process I/O.
- `UpdateChecker.java`, `MainApp.java`, `Launcher.java`, `module-info.java` and `ShortcutConfig.java` are not part of this model. They are networking, bootstrap, or an unused bean.
- The toggle button (`handleToggleService`) is not modelled: it calls service methods that do not exist in the service class.
- Concurrency is not modelled: the hook thread and the JavaFX thread are not represented, and every operation is a single sequential step.
- SystemActions.FromString: upper-cases ASCII letters only. Java's `toUpperCase` depends on the default locale and covers all of Unicode.
- SystemActions.ToUpper: ASCII letters only, for the same reason.
- ShortcutEditor.KeyPressed: states that the text is one that some iteration order of the held set produces. The actual `HashSet` order is an implementation detail of the Java runtime and is not modelled.
- Combo.ComboTokens: assumes the chosen key's name contains no `+`. The names JavaFX gives the keys do not, but the model leaves names open.
- ShortcutEditor.RemoveShortcut: the save after the removal (line 104) throws without a `JsonManager`. The removal has already happened by then, so the list is as stated. The exception itself is not modelled.

## Findings

| source | as written | input that shows it | evidently intended | confidence | as-written member | corrected member |
|---|---|---|---|---|---|---|
| src/main/java/com/myhotkey/shortcututitlity/MainController.java:247 | `jsonManager` is never set, because `setDependencies` is never called, so every accepted Add throws right after appending. The field, held keys and selection are never cleared | text "Ctrl+A" with VOLUME_UP selected; press Add twice: two entries with the same keys and action | Add saves the list and then clears the field, so a second press is rejected | high; not executed | ShortcutEditor.AddTwiceWithoutJsonManagerDuplicates | ShortcutEditor.AddTwiceAddsOnce |
