/** The `Shortcut` record: a key-combination text paired with an action,
    either of which may be null. */
module Shortcuts {
  import opened Wrappers
  import opened SystemActions

  /** A shortcut's two fields; `None` stands for a null field. */
  datatype Shortcut = Shortcut(keys: Option<string>, action: Option<SystemAction>)

  /** The no-argument constructor, used when a shortcut is read back from
      storage: both fields start out null. */
  function EmptyShortcut(): (s: Shortcut)
    ensures GetKeyCombo(s).None? && GetAction(s).None?
  {
    Shortcut(None, None)
  }

  /** The two-argument constructor: stores both arguments as given, null or
      empty included, without validating them. */
  function NewShortcut(keys: Option<string>, action: Option<SystemAction>): (s: Shortcut)
    ensures GetKeyCombo(s) == keys && GetAction(s) == action
  {
    Shortcut(keys, action)
  }

  /** `getKeyCombo`: the stored keys. */
  function GetKeyCombo(s: Shortcut): Option<string> {
    s.keys
  }

  /** `getAction`: the stored action. */
  function GetAction(s: Shortcut): Option<SystemAction> {
    s.action
  }

  /** `setKeyCombo`: the new keys are read back, the action is kept. */
  function SetKeyCombo(s: Shortcut, keys: Option<string>): (s': Shortcut)
    ensures GetKeyCombo(s') == keys
    ensures GetAction(s') == GetAction(s)
  {
    s.(keys := keys)
  }

  /** `setAction`: the new action is read back, the keys are kept. */
  function SetAction(s: Shortcut, action: Option<SystemAction>): (s': Shortcut)
    ensures GetAction(s') == action
    ensures GetKeyCombo(s') == GetKeyCombo(s)
  {
    s.(action := action)
  }

  /** A shortcut is determined by what its getters return, so setting a
      field to what it already holds changes nothing, and the last of two
      writes to a field wins. */
  lemma SettersLastWriteWins(s: Shortcut, k1: Option<string>, k2: Option<string>,
                             a1: Option<SystemAction>, a2: Option<SystemAction>)
    ensures SetKeyCombo(s, GetKeyCombo(s)) == s
    ensures SetAction(s, GetAction(s)) == s
    ensures SetKeyCombo(SetKeyCombo(s, k1), k2) == SetKeyCombo(s, k2)
    ensures SetAction(SetAction(s, a1), a2) == SetAction(s, a2)
    ensures SetAction(SetKeyCombo(s, k1), a1) == NewShortcut(k1, a1)
  {
  }
}
