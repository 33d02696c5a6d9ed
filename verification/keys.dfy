/** What the pipeline observes of, and emits to, the keyboard and mouse. The OS calls
    (`GetAsyncKeyState`, `keybd_event`, the keyboard and mouse libraries) are replaced by
    these values: key states become inputs, emitted input becomes a trace of actions. */
module Keys {

  /** Windows virtual-key codes of the three standard modifiers. */
  const VK_SHIFT: bv8 := 0x10
  const VK_CONTROL: bv8 := 0x11
  const VK_MENU: bv8 := 0x12

  /** `GetAsyncKeyState` results (a 16-bit SHORT) for control, shift and alt. */
  datatype KeyStates = KeyStates(ctrl: bv16, shift: bv16, alt: bv16)

  /** The key-state query, which raises where the Win32 API is unavailable. */
  datatype KeyQuery = Unavailable | Available(states: KeyStates)

  /** A key is physically down when the most significant bit of its state is set. */
  predicate IsDown(state: bv16)
  {
    state & 0x8000 != 0
  }

  /** One emitted input action. */
  datatype KeyAction =
    | Press(key: string)          // keyboard.press(name)
    | Release(key: string)        // keyboard.release(name)
    | KeybdDown(vk: bv8)          // keybd_event(vk, 0, 0, 0): a raw key-down
    | Send(combo: string)         // keyboard.send(combo): press and release in one call
    | Wheel(delta: int)           // mouse.wheel(delta / 120.0), kept as the integer delta

  /** Sum of the wheel deltas a trace emits. */
  function WheelTotal(actions: seq<KeyAction>): int
  {
    if |actions| == 0 then 0
    else (if actions[0].Wheel? then actions[0].delta else 0) + WheelTotal(actions[1..])
  }

  lemma {:induction false} WheelTotalAppend(a: seq<KeyAction>, b: seq<KeyAction>)
    ensures WheelTotal(a + b) == WheelTotal(a) + WheelTotal(b)
  {
    if |a| > 0 {
      assert (a + b)[1..] == a[1..] + b;
      WheelTotalAppend(a[1..], b);
    } else {
      assert a + b == b;
    }
  }

  /** Key traffic without wheel actions scrolls by nothing. */
  lemma {:induction false} WheelTotalKeysOnly(actions: seq<KeyAction>)
    requires forall i :: 0 <= i < |actions| ==> !actions[i].Wheel?
    ensures WheelTotal(actions) == 0
  {
    if |actions| > 0 {
      WheelTotalKeysOnly(actions[1..]);
    }
  }
}
