/** The global hook listener (`GlobalHotkeyService`): which handler a native
    key event selects. The handlers' effects on the operating system are
    not modelled; the listener's decision is returned instead. */
module HotkeyService {

  /** The two handlers the listener can call. */
  datatype Handler = HandleVolumeUp | HandleVolumeDown

  /** Modifier mask bits of the native hook library's key events. */
  const SHIFT_L_MASK: bv32 := 0x01
  const CTRL_L_MASK: bv32 := 0x02
  const META_L_MASK: bv32 := 0x04
  const ALT_L_MASK: bv32 := 0x08
  const ALT_R_MASK: bv32 := 0x80

  /** Virtual key codes of the native hook library for the U and D keys. */
  const VC_U: int := 0x16
  const VC_D: int := 0x20

  /** The three kinds of event the hook delivers. */
  datatype NativeEvent =
    | Pressed(modifiers: bv32, keyCode: int)
    | Released(modifiers: bv32, keyCode: int)
    | Typed(modifiers: bv32, keyCode: int)

  /** `nativeKeyPressed`: the handlers called, in call order. The two tests
      are independent `if`s, yet at most one fires, because the key codes
      differ; volume up fires exactly for left Alt with U, volume down
      exactly for left Alt with D. */
  function NativeKeyPressed(modifiers: bv32, keyCode: int): (fired: seq<Handler>)
    ensures |fired| <= 1
    ensures HandleVolumeUp in fired <==> (modifiers & ALT_L_MASK != 0 && keyCode == VC_U)
    ensures HandleVolumeDown in fired <==> (modifiers & ALT_L_MASK != 0 && keyCode == VC_D)
  {
    var isAltDown := modifiers & ALT_L_MASK != 0;
    (if isAltDown && keyCode == VC_U then [HandleVolumeUp] else [])
    + (if isAltDown && keyCode == VC_D then [HandleVolumeDown] else [])
  }

  /** `nativeKeyReleased`: calls nothing. */
  function NativeKeyReleased(modifiers: bv32, keyCode: int): seq<Handler> {
    []
  }

  /** `nativeKeyTyped`: calls nothing. */
  function NativeKeyTyped(modifiers: bv32, keyCode: int): seq<Handler> {
    []
  }

  /** The listener's answer to one delivered event: at most one handler,
      and none for a release or a typed character. */
  function OnEvent(e: NativeEvent): (fired: seq<Handler>)
    ensures |fired| <= 1
    ensures !e.Pressed? ==> fired == []
  {
    match e
    case Pressed(m, c) => NativeKeyPressed(m, c)
    case Released(m, c) => NativeKeyReleased(m, c)
    case Typed(m, c) => NativeKeyTyped(m, c)
  }

  /** How many of the events are key presses. */
  function CountPresses(events: seq<NativeEvent>): nat {
    if events == [] then 0
    else (if events[0].Pressed? then 1 else 0) + CountPresses(events[1..])
  }

  /** The handlers called for a stream of events delivered in order: never
      more calls than key presses in the stream. */
  function Dispatch(events: seq<NativeEvent>): (fired: seq<Handler>)
    ensures |fired| <= CountPresses(events)
  {
    if events == [] then [] else OnEvent(events[0]) + Dispatch(events[1..])
  }

  /** Without the left-Alt bit no key code calls a handler. */
  lemma NoLeftAltNoAction(modifiers: bv32, keyCode: int)
    requires modifiers & ALT_L_MASK == 0
    ensures NativeKeyPressed(modifiers, keyCode) == []
  {
  }

  /** Only the left-Alt bit of the mask is consulted: masks that agree on it
      select the same handlers for every key code. */
  lemma OnlyLeftAltBitMatters(m1: bv32, m2: bv32, keyCode: int)
    requires m1 & ALT_L_MASK == m2 & ALT_L_MASK
    ensures NativeKeyPressed(m1, keyCode) == NativeKeyPressed(m2, keyCode)
  {
  }

  /** Holding Ctrl, Shift or any other modifier as well as left Alt does not
      stop a match. */
  lemma ExtraModifiersDoNotBlock(extra: bv32, keyCode: int)
    ensures NativeKeyPressed(ALT_L_MASK | extra, keyCode) == NativeKeyPressed(ALT_L_MASK, keyCode)
    ensures NativeKeyPressed(ALT_L_MASK | CTRL_L_MASK | SHIFT_L_MASK, VC_U) == [HandleVolumeUp]
  {
  }

  /** The right Alt key alone matches nothing, for any key code. */
  lemma RightAltDoesNotMatch(keyCode: int)
    ensures NativeKeyPressed(ALT_R_MASK, keyCode) == []
  {
  }

  /** Released and typed events never call a handler, so a stream's calls
      come from its presses alone. */
  lemma {:induction false} OnlyPressesFire(events: seq<NativeEvent>)
    requires forall i :: 0 <= i < |events| ==> !events[i].Pressed?
    ensures Dispatch(events) == []
  {
    if events != [] {
      OnlyPressesFire(events[1..]);
    }
  }
}
