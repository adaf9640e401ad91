/** The JavaFX key codes seen by the shortcut recorder of the main window. */
module KeyCodes {

  /** The five codes the recorder names explicitly, and every other code.
      `modifierClass` is the answer JavaFX's `isModifierKey` gives for a
      code that is not one of the five; the model leaves it open. */
  datatype KeyCode =
    | Control
    | Alt
    | Shift
    | Windows
    | Command
    | Other(name: string, modifierClass: bool)

  /** `KeyCode.isModifierKey`: true for the five, open for the rest. */
  predicate IsModifierKey(k: KeyCode) {
    match k
    case Other(_, modifierClass) => modifierClass
    case _ => true
  }

  /** `KeyCode.getName`: the display name JavaFX gives a key code. */
  function KeyName(k: KeyCode): string {
    match k
    case Control => "Ctrl"
    case Alt => "Alt"
    case Shift => "Shift"
    case Windows => "Windows"
    case Command => "Command"
    case Other(name, _) => name
  }
}
