/** The low-level mouse hook callback: decodes the wheel delta, hands the event to the
    observer's callback and maps its answer to the hook's return value. Installing the
    hook and running its message pump are OS plumbing outside this model. */
module MouseHook {
  import opened Types

  const WM_MOUSEWHEEL: int := 0x020A
  const WM_MOUSEHWHEEL: int := 0x020E

  /** What the callback receives: message, signed wheel delta, pointer position. */
  datatype EventInfo = EventInfo(msg: int, delta: int, x: int, y: int)

  /** The callback either returns whether to allow the event, or raises. */
  datatype CallbackResult = Returned(allow: bool) | Raised

  /** `1` (the event is swallowed) or the result of passing it to the next hook. */
  datatype HookReturn = Block | CallNext

  /** The hook's answer and the event handed to the callback, if it was called. */
  datatype HookOutcome = HookOutcome(ret: HookReturn, delivered: Option<EventInfo>)

  /** A 16-bit word read as a signed short (two's complement). */
  function ToSigned16(w: bv16): (v: int)
    ensures -0x8000 <= v < 0x8000
    ensures v == w as int || v + 0x10000 == w as int
  {
    var n := w as int;
    assert 0 <= n < 0x10000;
    if n < 0x8000 then n else n - 0x10000
  }

  /** The wheel delta: the high word of `mouseData` as a signed short. */
  function WheelDelta(mouseData: bv32): (d: int)
    ensures -32768 <= d <= 32767
    ensures d == (mouseData >> 16) as int || d + 0x10000 == (mouseData >> 16) as int
  {
    ToSigned16((mouseData >> 16) as bv16)
  }

  /** The two's-complement 16-bit word of a representable delta. */
  function ToWord16(d: int): bv16
    requires -32768 <= d <= 32767
  {
    (if d >= 0 then d else d + 0x10000) as bv16
  }

  /** Reading a word as signed loses nothing: writing the value back in two's complement
      gives the same word, so distinct words decode to distinct deltas. */
  lemma SignedRoundTrip(w: bv16)
    ensures ToWord16(ToSigned16(w)) == w
  {
    WordIntWord(w);
    UnsignedOfSigned(w);
  }

  lemma WordIntWord(w: bv16)
    ensures (w as int) as bv16 == w
  {
  }

  lemma UnsignedOfSigned(w: bv16)
    ensures var d := ToSigned16(w); (if d >= 0 then d else d + 0x10000) == w as int
  {
    assert 0 <= w as int < 0x10000;
  }

  /** The decoded delta re-encodes to exactly the high word of `mouseData`; the low word
      plays no part. */
  lemma DeltaRoundTrip(mouseData: bv32, low: bv16)
    ensures ToWord16(WheelDelta(mouseData)) == (mouseData >> 16) as bv16
    ensures WheelDelta((mouseData & 0xFFFF_0000) | (low as bv32)) == WheelDelta(mouseData)
  {
    SignedRoundTrip((mouseData >> 16) as bv16);
    assert ((mouseData & 0xFFFF_0000) | (low as bv32)) >> 16 == mouseData >> 16;
  }

  /** One notch forward reads as 120, one notch back as -120. */
  lemma DeltaExamples()
    ensures WheelDelta(0x0078_0000) == 120
    ensures WheelDelta(0xFF88_0000) == -120
  {
  }

  /** The hook procedure. With a negative `nCode` the callback is skipped and the event
      passed on. Otherwise the callback receives the message, the decoded delta and the
      pointer position unchanged; the event is blocked only when the callback returns
      false, and a raising callback never blocks. */
  function HookCallback(nCode: int, wParam: int, mouseData: bv32, x: int, y: int,
                        callback: EventInfo -> CallbackResult): (r: HookOutcome)
    ensures nCode < 0 ==> r == HookOutcome(CallNext, None)
    ensures nCode >= 0 ==> r.delivered == Some(EventInfo(wParam, WheelDelta(mouseData), x, y))
    ensures r.ret == Block <==> nCode >= 0 && callback(EventInfo(wParam, WheelDelta(mouseData), x, y)) == Returned(false)
  {
    if nCode < 0 then HookOutcome(CallNext, None)
    else
      var info := EventInfo(wParam, WheelDelta(mouseData), x, y);
      match callback(info)
      case Returned(allow) => HookOutcome(if allow then CallNext else Block, Some(info))
      case Raised => HookOutcome(CallNext, Some(info))
  }
}
