/** The input observer: the wheel-hook decision, the zoom worker's state machine, hotkey
    dispatch and registration, and the start/stop guards. Threads, locks and sleeps are
    replaced by single atomic steps; the clock is an integer millisecond input; the
    context poller's verdict is the `active` input. */
module Observer {
  import opened Types
  import opened Strings
  import opened Keys
  import MouseHook
  import Injector

  /** Window after the last zoom tick during which further ticks still count (0.5 s). */
  const STICKY_MS: int := 500
  /** Inactivity after which the worker leaves continuous zoom (0.5 s). */
  const IDLE_TIMEOUT_MS: int := 500
  /** Only the first fifty mouse events are logged. */
  const DEBUG_EVENT_LIMIT: nat := 50
  const DEFAULT_TRIGGER: string := "ctrl"
  const DEFAULT_OUTPUT: string := "alt"
  const WHEEL_TOKEN: string := "wheel"
  const WHEEL_SUFFIX: string := "+wheel"

  /** The hook callback's answer. */
  datatype Verdict = Allow | Block

  /** The zoom-continuity fields: time of the last zoom tick, undrained delta, and whether
      a session is active. */
  datatype ZoomFields = ZoomFields(lastWheelTime: int, buffer: int, active: bool)

  const ZOOM_RESET: ZoomFields := ZoomFields(0, 0, false)

  /** The observer's state. `zoom` is None until the zoom fields are first assigned (as
      written, that happens only inside the debug logger). `triggerKey`/`outputKey` are
      the keys of the last blocked tick; `hotkeys` the registered (trigger, output) pairs;
      `mouseHook` whether a mouse hook object exists. */
  datatype ObserverState = ObserverState(
    running: bool,
    debugCount: nat,
    zoom: Option<ZoomFields>,
    triggerKey: Option<string>,
    outputKey: Option<string>,
    hotkeys: seq<(string, string)>,
    mouseHook: bool)

  /** The observer as its constructor leaves it. */
  function NewObserver(): ObserverState
  {
    ObserverState(false, 0, None, None, None, [], false)
  }

  /** The observer with the zoom fields initialised at construction, as the worker and
      the hook expect. */
  function NewObserverIntended(): (s: ObserverState)
    ensures s.zoom == Some(ZOOM_RESET) && !s.running && s.hotkeys == [] && !s.mouseHook
  {
    NewObserver().(zoom := Some(ZOOM_RESET))
  }

  /** The debug logger. As written (`resets`), the zoom-field initialisation sits inside
      it, so every call sets the last wheel time and the buffer to 0 and the active flag
      to false; the file write is not modelled. */
  function LogDebug(s: ObserverState, resets: bool): (s': ObserverState)
    ensures resets ==> s'.zoom == Some(ZOOM_RESET)
    ensures !resets ==> s' == s
    ensures s'.running == s.running && s'.debugCount == s.debugCount && s'.hotkeys == s.hotkeys
    ensures s'.triggerKey == s.triggerKey && s'.outputKey == s.outputKey && s'.mouseHook == s.mouseHook
  {
    if resets then s.(zoom := Some(ZOOM_RESET)) else s
  }

  /** Vertical or horizontal wheel message. */
  predicate IsWheelMessage(msg: int)
  {
    msg == MouseHook.WM_MOUSEWHEEL || msg == MouseHook.WM_MOUSEHWHEEL
  }

  /** The first rule whose input mentions "wheel". */
  function WheelRule(mappings: seq<Rule>): (r: Option<Rule>)
    ensures r.None? <==> forall i :: 0 <= i < |mappings| ==> !Contains(mappings[i].input, WHEEL_TOKEN)
    ensures r.Some? ==> exists i :: 0 <= i < |mappings| && mappings[i] == r.value && Contains(r.value.input, WHEEL_TOKEN)
                          && forall j :: 0 <= j < i ==> !Contains(mappings[j].input, WHEEL_TOKEN)
  {
    if |mappings| == 0 then None
    else if Contains(mappings[0].input, WHEEL_TOKEN) then Some(mappings[0])
    else
      var r := WheelRule(mappings[1..]);
      assert forall i :: 1 <= i < |mappings| ==> mappings[i] == mappings[1..][i - 1];
      assert r.Some? ==> exists i :: 0 <= i < |mappings| && mappings[i] == r.value && Contains(r.value.input, WHEEL_TOKEN)
                          && forall j :: 0 <= j < i ==> !Contains(mappings[j].input, WHEEL_TOKEN) by {
        if r.Some? {
          var i :| 0 <= i < |mappings[1..]| && mappings[1..][i] == r.value
                   && forall j :: 0 <= j < i ==> !Contains(mappings[1..][j].input, WHEEL_TOKEN);
          assert mappings[i + 1] == r.value;
        }
      }
      r
  }

  /** A modifier name from a wheel rule side: "+wheel" removed, stripped, lower-cased. */
  function ModifierName(side: string): string
  {
    Lower(Strip(ReplaceAll(side, WHEEL_SUFFIX, "")))
  }

  /** Only ctrl, alt and shift are ever reported as held. */
  function ModPressed(name: string, ks: KeyStates): (held: bool)
    ensures held ==> name == "ctrl" || name == "alt" || name == "shift"
    ensures name == "ctrl" ==> (held <==> IsDown(ks.ctrl))
    ensures name == "alt" ==> (held <==> IsDown(ks.alt))
    ensures name == "shift" ==> (held <==> IsDown(ks.shift))
  {
    if name == "ctrl" then IsDown(ks.ctrl)
    else if name == "alt" then IsDown(ks.alt)
    else if name == "shift" then IsDown(ks.shift)
    else false
  }

  /** The state once the per-event debug logging is done: the first fifty events are
      logged (and counted). */
  function AfterEventLog(s: ObserverState, resets: bool): ObserverState
  {
    if s.debugCount < DEBUG_EVENT_LIMIT then LogDebug(s, resets).(debugCount := s.debugCount + 1) else s
  }

  /** The tick engages zoom: the trigger is held or the tick falls in the sticky window. */
  predicate Engaged(z: ZoomFields, trigger: string, ks: KeyStates, now: int)
  {
    ModPressed(trigger, ks) || now - z.lastWheelTime < STICKY_MS
  }

  /** The modifier names a wheel rule stands for. */
  datatype WheelBinding = WheelBinding(trigger: string, output: string)

  /** The binding of the first wheel rule, if there is one. */
  function BindingOf(mappings: seq<Rule>): (b: Option<WheelBinding>)
    ensures b.Some? <==> WheelRule(mappings).Some?
    ensures b.Some? ==> b.value.trigger == ModifierName(WheelRule(mappings).value.input)
    ensures b.Some? ==> b.value.output == ModifierName(WheelRule(mappings).value.output)
  {
    match WheelRule(mappings)
    case None => None
    case Some(rule) => Some(WheelBinding(ModifierName(rule.input), ModifierName(rule.output)))
  }

  /** One call of the wheel-hook callback for a given binding, parameterised by whether
      logging resets the zoom fields. */
  function HookStep(s: ObserverState, ev: MouseHook.EventInfo, active: bool, binding: Option<WheelBinding>,
                    query: KeyQuery, now: int, resets: bool): (r: (Verdict, ObserverState))
    ensures !IsWheelMessage(ev.msg) || !active || binding.None? || query.Unavailable? ==> r.0 == Allow
    ensures r.0 == Block ==> r.1.zoom.Some? && r.1.zoom.value.lastWheelTime == now && r.1.zoom.value.active
  {
    var s1 := AfterEventLog(s, resets);
    if !IsWheelMessage(ev.msg) || !active then (Allow, s1)
    else match (binding, query, s1.zoom)
      case (Some(b), Available(ks), Some(z)) =>
        if Engaged(z, b.trigger, ks, now) then
          var z1 := LogDebug(s1, resets).zoom.value.(lastWheelTime := now);
          if !ModPressed(b.output, ks) then
            (Block, s1.(zoom := Some(z1.(buffer := z1.buffer + ev.delta, active := true)),
                        triggerKey := Some(b.trigger), outputKey := Some(b.output)))
          else (Allow, s1.(zoom := Some(z1)))
        else (Allow, s1)
      case _ => (Allow, s1)
  }

  /** For any binding: the step blocks exactly when the event is a wheel event in an
      active context, a binding exists, the key states are readable, the zoom fields exist
      after the per-event log, the trigger is held or the tick is sticky, and the output is
      not held. */
  lemma HookStepBlocks(s: ObserverState, ev: MouseHook.EventInfo, active: bool, binding: Option<WheelBinding>,
                       query: KeyQuery, now: int, resets: bool)
    ensures HookStep(s, ev, active, binding, query, now, resets).0 == Block <==>
              && IsWheelMessage(ev.msg) && active && binding.Some? && query.Available?
              && AfterEventLog(s, resets).zoom.Some?
              && Engaged(AfterEventLog(s, resets).zoom.value, binding.value.trigger, query.states, now)
              && !ModPressed(binding.value.output, query.states)
  {
  }

  /** For any binding: a blocked tick records the binding, sets the last tick time to now
      and activates the session; the buffer gets the delta added, on top of nothing when
      logging resets the fields and on top of the previous buffer otherwise. */
  lemma HookStepBlocked(s: ObserverState, ev: MouseHook.EventInfo, active: bool, binding: Option<WheelBinding>,
                        query: KeyQuery, now: int, resets: bool)
    requires HookStep(s, ev, active, binding, query, now, resets).0 == Block
    ensures binding.Some?
    ensures var s' := HookStep(s, ev, active, binding, query, now, resets).1;
            s'.triggerKey == Some(binding.value.trigger) && s'.outputKey == Some(binding.value.output)
    ensures resets ==> HookStep(s, ev, active, binding, query, now, resets).1.zoom == Some(ZoomFields(now, ev.delta, true))
    ensures !resets ==> s.zoom.Some?
    ensures !resets ==> HookStep(s, ev, active, binding, query, now, resets).1.zoom == Some(ZoomFields(now, s.zoom.value.buffer + ev.delta, true))
  {
  }

  /** For any binding: without resets, an allowed tick keeps the buffer and the session
      flag, and the fields never disappear. */
  lemma HookStepAllowedKeepsBuffer(s: ObserverState, ev: MouseHook.EventInfo, active: bool, binding: Option<WheelBinding>,
                                   query: KeyQuery, now: int)
    requires s.zoom.Some?
    ensures var r := HookStep(s, ev, active, binding, query, now, false);
            r.1.zoom.Some? && (r.0 == Allow ==> r.1.zoom.value.buffer == s.zoom.value.buffer && r.1.zoom.value.active == s.zoom.value.active)
  {
  }

  /** For any binding: once logging is exhausted, an engaged tick while the output is
      already held passes through natively and only refreshes the last tick time. */
  lemma HookStepPassesThrough(s: ObserverState, ev: MouseHook.EventInfo, b: WheelBinding, ks: KeyStates, now: int, resets: bool)
    requires s.debugCount >= DEBUG_EVENT_LIMIT && s.zoom.Some? && IsWheelMessage(ev.msg)
    requires Engaged(s.zoom.value, b.trigger, ks, now) && ModPressed(b.output, ks)
    ensures var r := HookStep(s, ev, true, Some(b), Available(ks), now, resets);
            r.0 == Allow && r.1 == s.(zoom := Some(LogDebug(s, resets).zoom.value.(lastWheelTime := now)))
  {
  }

  /** For any binding: a wheel tick with neither the trigger held nor the sticky window
      open is allowed, and only the per-event logging touches the state. */
  lemma HookStepNotEngaged(s: ObserverState, ev: MouseHook.EventInfo, b: WheelBinding, ks: KeyStates, now: int, resets: bool)
    requires IsWheelMessage(ev.msg) && AfterEventLog(s, resets).zoom.Some?
    requires !Engaged(AfterEventLog(s, resets).zoom.value, b.trigger, ks, now)
    ensures HookStep(s, ev, true, Some(b), Available(ks), now, resets) == (Allow, AfterEventLog(s, resets))
  {
  }

  /** For any binding: the step keeps the running flag, hotkeys and mouse hook, never
      discards zoom fields, and once logging is exhausted leaves the state untouched for a
      non-wheel event. */
  lemma HookStepFrame(s: ObserverState, ev: MouseHook.EventInfo, active: bool, binding: Option<WheelBinding>,
                      query: KeyQuery, now: int, resets: bool)
    ensures var s' := HookStep(s, ev, active, binding, query, now, resets).1;
            s'.running == s.running && s'.hotkeys == s.hotkeys && s'.mouseHook == s.mouseHook
    ensures s.zoom.Some? ==> HookStep(s, ev, active, binding, query, now, resets).1.zoom.Some?
    ensures !IsWheelMessage(ev.msg) && s.debugCount >= DEBUG_EVENT_LIMIT ==> HookStep(s, ev, active, binding, query, now, resets).1 == s
  {
  }

  /** The wheel-hook callback as written. Non-wheel messages, an inactive context, no
      wheel rule, or a failing key-state query all allow the event. A blocked tick leaves
      the session active with the last tick time set to now and, because the "Zoom
      Triggered" log resets the fields first, a buffer that holds only this tick's delta. */
  function WheelStep(s: ObserverState, ev: MouseHook.EventInfo, active: bool, mappings: seq<Rule>,
                     query: KeyQuery, now: int): (r: (Verdict, ObserverState))
    ensures !IsWheelMessage(ev.msg) || !active || WheelRule(mappings).None? || query.Unavailable? ==> r.0 == Allow
    ensures r.0 == Block ==> r.1.zoom == Some(ZoomFields(now, ev.delta, true))
  {
    var r := HookStep(s, ev, active, BindingOf(mappings), query, now, true);
    HookStepBlocks(s, ev, active, BindingOf(mappings), query, now, true);
    if r.0 == Block then HookStepBlocked(s, ev, active, BindingOf(mappings), query, now, true); r else r
  }

  /** The as-written callback blocks exactly when the event is a wheel event in an active
      context with a wheel rule, the key states are readable, the zoom fields exist after
      the per-event log, the trigger is held or the tick is sticky, and the output is not
      held. */
  lemma WheelStepBlocks(s: ObserverState, ev: MouseHook.EventInfo, active: bool, mappings: seq<Rule>,
                        query: KeyQuery, now: int)
    ensures WheelStep(s, ev, active, mappings, query, now).0 == Block <==>
              && IsWheelMessage(ev.msg) && active && WheelRule(mappings).Some? && query.Available?
              && AfterEventLog(s, true).zoom.Some?
              && Engaged(AfterEventLog(s, true).zoom.value, ModifierName(WheelRule(mappings).value.input), query.states, now)
              && !ModPressed(ModifierName(WheelRule(mappings).value.output), query.states)
  {
    HookStepBlocks(s, ev, active, BindingOf(mappings), query, now, true);
  }

  /** A blocked tick records the wheel rule's trigger and output modifier names for the
      worker. */
  lemma WheelStepRecordsKeys(s: ObserverState, ev: MouseHook.EventInfo, active: bool, mappings: seq<Rule>,
                             query: KeyQuery, now: int)
    requires WheelStep(s, ev, active, mappings, query, now).0 == Block
    ensures WheelRule(mappings).Some?
    ensures WheelStep(s, ev, active, mappings, query, now).1.triggerKey == Some(ModifierName(WheelRule(mappings).value.input))
    ensures WheelStep(s, ev, active, mappings, query, now).1.outputKey == Some(ModifierName(WheelRule(mappings).value.output))
  {
    HookStepBlocked(s, ev, active, BindingOf(mappings), query, now, true);
  }

  /** The callback never changes the running flag, the registered hotkeys or the mouse
      hook, never discards existing zoom fields, and once logging is exhausted a non-wheel
      event leaves the observer untouched. */
  lemma WheelStepFrame(s: ObserverState, ev: MouseHook.EventInfo, active: bool, mappings: seq<Rule>,
                       query: KeyQuery, now: int)
    ensures var s' := WheelStep(s, ev, active, mappings, query, now).1;
            s'.running == s.running && s'.hotkeys == s.hotkeys && s'.mouseHook == s.mouseHook
    ensures s.zoom.Some? ==> WheelStep(s, ev, active, mappings, query, now).1.zoom.Some?
    ensures !IsWheelMessage(ev.msg) && s.debugCount >= DEBUG_EVENT_LIMIT ==> WheelStep(s, ev, active, mappings, query, now).1 == s
  {
    HookStepFrame(s, ev, active, BindingOf(mappings), query, now, true);
  }

  /** The callback with the zoom fields initialised once and never reset by logging: a
      blocked tick adds its delta to the buffer, an allowed one leaves the buffer and the
      session flag as they were. */
  function WheelStepIntended(s: ObserverState, ev: MouseHook.EventInfo, active: bool, mappings: seq<Rule>,
                             query: KeyQuery, now: int): (r: (Verdict, ObserverState))
    requires s.zoom.Some?
    ensures r.1.zoom.Some?
    ensures r.0 == Block ==> r.1.zoom.value == ZoomFields(now, s.zoom.value.buffer + ev.delta, true)
    ensures r.0 == Allow ==> r.1.zoom.value.buffer == s.zoom.value.buffer && r.1.zoom.value.active == s.zoom.value.active
  {
    var r := HookStep(s, ev, active, BindingOf(mappings), query, now, false);
    HookStepAllowedKeepsBuffer(s, ev, active, BindingOf(mappings), query, now);
    if r.0 == Block then HookStepBlocked(s, ev, active, BindingOf(mappings), query, now, false); r else r
  }

  /** The corrected callback blocks under the same conditions as the one as written, with
      the fields as they stood before the event. */
  lemma WheelStepIntendedBlocks(s: ObserverState, ev: MouseHook.EventInfo, active: bool, mappings: seq<Rule>,
                                query: KeyQuery, now: int)
    requires s.zoom.Some?
    ensures WheelStepIntended(s, ev, active, mappings, query, now).0 == Block <==>
              && IsWheelMessage(ev.msg) && active && WheelRule(mappings).Some? && query.Available?
              && Engaged(s.zoom.value, ModifierName(WheelRule(mappings).value.input), query.states, now)
              && !ModPressed(ModifierName(WheelRule(mappings).value.output), query.states)
  {
    HookStepBlocks(s, ev, active, BindingOf(mappings), query, now, false);
  }

  /** The corrected callback keeps the running flag, hotkeys and mouse hook. */
  lemma WheelStepIntendedFrame(s: ObserverState, ev: MouseHook.EventInfo, active: bool, mappings: seq<Rule>,
                               query: KeyQuery, now: int)
    requires s.zoom.Some?
    ensures var s' := WheelStepIntended(s, ev, active, mappings, query, now).1;
            s'.running == s.running && s'.hotkeys == s.hotkeys && s'.mouseHook == s.mouseHook
  {
    HookStepFrame(s, ev, active, BindingOf(mappings), query, now, false);
  }

  /** The hook procedure wired to the observer: a negative `nCode` skips the observer and
      passes the event on; otherwise the event is blocked exactly when the observer's
      step blocks it, which agrees with the generic hook procedure. */
  function OnMouse(s: ObserverState, nCode: int, wParam: int, mouseData: bv32, x: int, y: int,
                   active: bool, mappings: seq<Rule>, query: KeyQuery, now: int): (r: (MouseHook.HookReturn, ObserverState))
    ensures nCode < 0 ==> r == (MouseHook.CallNext, s)
    ensures var info := MouseHook.EventInfo(wParam, MouseHook.WheelDelta(mouseData), x, y);
            var step := WheelStep(s, info, active, mappings, query, now);
            r.0 == MouseHook.HookCallback(nCode, wParam, mouseData, x, y,
                                          _ => MouseHook.Returned(step.0 == Allow)).ret
    ensures nCode >= 0 ==>
              r.1 == WheelStep(s, MouseHook.EventInfo(wParam, MouseHook.WheelDelta(mouseData), x, y), active, mappings, query, now).1
  {
    if nCode < 0 then (MouseHook.CallNext, s)
    else
      var info := MouseHook.EventInfo(wParam, MouseHook.WheelDelta(mouseData), x, y);
      var (v, s') := WheelStep(s, info, active, mappings, query, now);
      (if v == Block then MouseHook.Block else MouseHook.CallNext, s')
  }

  // ---------------------------------------------------------------- zoom worker

  /** Where the zoom worker is: waiting for a session, in continuous mode for a trigger /
      output pair, ended because the observer stopped, or dead from reading zoom fields
      that were never assigned. */
  datatype WorkerPhase = Idle | Zooming(trigger: string, output: string) | Stopped | Crashed

  /** The trigger's physical state as the worker reads it: alt and shift by name, any
      other name by the control key. */
  function TriggerDown(trigger: string, ks: KeyStates): bool
  {
    if trigger == "alt" then IsDown(ks.alt)
    else if trigger == "shift" then IsDown(ks.shift)
    else IsDown(ks.ctrl)
  }

  /** Leaving continuous mode: release the output, then press the trigger if it is
      physically held and release it otherwise. */
  function ExitActions(trigger: string, output: string, ks: KeyStates): (t: seq<KeyAction>)
    ensures |t| == 2 && t[0] == Release(output)
    ensures t[1] == Press(trigger) <==> TriggerDown(trigger, ks)
    ensures t[1] == Release(trigger) <==> !TriggerDown(trigger, ks)
    ensures WheelTotal(t) == 0
  {
    var t := [Release(output), if TriggerDown(trigger, ks) then Press(trigger) else Release(trigger)];
    WheelTotalKeysOnly(t);
    t
  }

  /** The exit sequence runs to its end: the keyboard library accepts the output name,
      the trigger's key state can be read, and the library accepts the trigger name. */
  predicate ExitCompletes(trigger: string, output: string, known: string -> bool, query: KeyQuery)
  {
    known(output) && query.Available? && known(trigger)
  }

  /** The key traffic of the exit sequence up to where it ends or raises: nothing when
      releasing the output raises, the output's release alone when the key-state read or
      the trigger's restore raises, the whole exit otherwise. */
  function ExitTrace(trigger: string, output: string, known: string -> bool, query: KeyQuery): (t: seq<KeyAction>)
    ensures ExitCompletes(trigger, output, known, query) ==> t == ExitActions(trigger, output, query.states)
    ensures !ExitCompletes(trigger, output, known, query) ==> t == (if known(output) then [Release(output)] else [])
    ensures WheelTotal(t) == 0
  {
    if !known(output) then []
    else if ExitCompletes(trigger, output, known, query) then ExitActions(trigger, output, query.states)
    else
      WheelTotalKeysOnly([Release(output)]);
      [Release(output)]
  }

  /** The key traffic of entering continuous mode up to where it ends or raises: release
      the trigger, then press the output. */
  function EntryTrace(trigger: string, output: string, known: string -> bool): (t: seq<KeyAction>)
    ensures known(trigger) && known(output) ==> t == [Release(trigger), Press(output)]
    ensures !known(trigger) ==> t == []
    ensures known(trigger) && !known(output) ==> t == [Release(trigger)]
    ensures WheelTotal(t) == 0
  {
    var t := if !known(trigger) then [] else if !known(output) then [Release(trigger)] else [Release(trigger), Press(output)];
    WheelTotalKeysOnly(t);
    t
  }

  /** Result of one worker iteration. */
  datatype WorkerResult = WorkerResult(phase: WorkerPhase, state: ObserverState, actions: seq<KeyAction>)

  /** Leaving continuous mode towards `next` with the fields `z`: when the exit sequence
      completes the buffer is discarded; when it raises the worker is dead and the fields
      stay as they are. */
  function LeaveZoom(next: WorkerPhase, s: ObserverState, z: ZoomFields, trigger: string, output: string,
                     known: string -> bool, query: KeyQuery): WorkerResult
  {
    if ExitCompletes(trigger, output, known, query) then
      WorkerResult(next, s.(zoom := Some(z.(buffer := 0))), ExitTrace(trigger, output, known, query))
    else WorkerResult(Crashed, s.(zoom := Some(z)), ExitTrace(trigger, output, known, query))
  }

  /** One iteration of the zoom worker. `known` says which key names the keyboard library
      accepts; a rejected name, like a failing key-state read, raises and ends the worker
      thread (`Crashed`) with the actions done so far. Idle: stop when the observer
      stopped; otherwise, once a session is active, release the trigger and press the
      output (defaults ctrl / alt). Zooming: drain the buffer, zeroing it, and scroll by
      what was drained; with nothing drained and more than 0.5 s since the last tick, end
      the session. When the observer stops mid-session the session ends and the buffer
      is discarded. */
  function WorkerStep(phase: WorkerPhase, s: ObserverState, now: int, known: string -> bool, query: KeyQuery): (r: WorkerResult)
    ensures r.state.running == s.running && r.state.hotkeys == s.hotkeys && r.state.mouseHook == s.mouseHook
    ensures r.state.triggerKey == s.triggerKey && r.state.outputKey == s.outputKey && r.state.debugCount == s.debugCount
    ensures s.zoom.Some? <==> r.state.zoom.Some?
    ensures s.running && s.zoom.Some? ==> WheelTotal(r.actions) + r.state.zoom.value.buffer == s.zoom.value.buffer
    ensures phase.Zooming? && s.zoom.Some? && r.phase != Crashed ==> r.state.zoom.value.buffer == 0
    ensures phase.Zooming? && s.zoom.Some? && r.phase == Crashed ==> r.state.zoom.value.buffer == s.zoom.value.buffer
    ensures phase.Zooming? && s.running && s.zoom.Some? ==>
              (r.phase == phase <==> !(s.zoom.value.buffer == 0 && now - s.zoom.value.lastWheelTime > IDLE_TIMEOUT_MS))
    ensures phase.Zooming? && s.running && s.zoom.Some? ==>
              (r.phase == Idle <==> s.zoom.value.buffer == 0 && now - s.zoom.value.lastWheelTime > IDLE_TIMEOUT_MS
                                    && ExitCompletes(phase.trigger, phase.output, known, query))
    ensures phase.Zooming? && r.phase != phase && s.zoom.Some? ==>
              r.actions == ExitTrace(phase.trigger, phase.output, known, query)
              && (r.phase == Crashed <==> !ExitCompletes(phase.trigger, phase.output, known, query))
    ensures phase.Zooming? && r.phase == Idle ==> r.state.zoom.Some? && !r.state.zoom.value.active
    ensures phase == Idle && s.running && s.zoom.Some? && s.zoom.value.active ==>
              var t := if s.triggerKey.Some? then s.triggerKey.value else DEFAULT_TRIGGER;
              var o := if s.outputKey.Some? then s.outputKey.value else DEFAULT_OUTPUT;
              r.state == s && r.actions == EntryTrace(t, o, known)
              && r.phase == (if known(t) && known(o) then Zooming(t, o) else Crashed)
    ensures phase == Idle && s.zoom.None? && s.running ==> r.phase == Crashed
  {
    match phase
    case Stopped => WorkerResult(phase, s, [])
    case Crashed => WorkerResult(phase, s, [])
    case Idle =>
      if !s.running then WorkerResult(Stopped, s, [])
      else (match s.zoom
        case None => WorkerResult(Crashed, s, [])
        case Some(z) =>
          if !z.active then WorkerResult(Idle, s, [])
          else
            var t := if s.triggerKey.Some? then s.triggerKey.value else DEFAULT_TRIGGER;
            var o := if s.outputKey.Some? then s.outputKey.value else DEFAULT_OUTPUT;
            WorkerResult(if known(t) && known(o) then Zooming(t, o) else Crashed, s, EntryTrace(t, o, known)))
    case Zooming(t, o) =>
      match s.zoom
      case None => WorkerResult(Crashed, s, [])
      case Some(z) =>
        if !s.running then LeaveZoom(Stopped, s, z, t, o, known, query)
        else if z.buffer != 0 then
          WorkerResult(phase, s.(zoom := Some(z.(buffer := 0))), [Wheel(z.buffer)])
        else if now - z.lastWheelTime > IDLE_TIMEOUT_MS then LeaveZoom(Idle, s, z.(active := false), t, o, known, query)
        else WorkerResult(phase, s, [])
  }

  // ---------------------------------------------------------------- concrete rule names

  /** A wheel rule side "m+wheel", for a lower-case modifier with no '+' and no padding,
      names the modifier m. */
  lemma ModifierNameOf(m: string)
    requires |m| > 0 && '+' !in m && !IsSpace(m[0]) && !IsSpace(m[|m| - 1]) && Lower(m) == m
    ensures ModifierName(m + WHEEL_SUFFIX) == m
  {
    ReplaceAllSuffix(m, WHEEL_SUFFIX);
    StripUnpadded(m);
  }

  /** "ctrl+wheel" names ctrl. */
  lemma CtrlName()
    ensures ModifierName("ctrl+wheel") == "ctrl"
  {
    var m := "ctrl";
    assert Lower(m) == m by {
      forall i | 0 <= i < |m| ensures LowerChar(m[i]) == m[i] { }
    }
    assert m + WHEEL_SUFFIX == "ctrl+wheel";
    ModifierNameOf(m);
  }

  /** "alt+wheel" names alt. */
  lemma AltName()
    ensures ModifierName("alt+wheel") == "alt"
  {
    var m := "alt";
    assert Lower(m) == m by {
      forall i | 0 <= i < |m| ensures LowerChar(m[i]) == m[i] { }
    }
    assert m + WHEEL_SUFFIX == "alt+wheel";
    ModifierNameOf(m);
  }

  // ---------------------------------------------------------------- scenarios

  /** The default gesture rule: Ctrl + wheel becomes Alt + wheel. */
  const ZOOM_RULE: Rule := Rule("ctrl+wheel", "alt+wheel", "gesture")
  /** One notch of a vertical wheel. */
  const NOTCH: MouseHook.EventInfo := MouseHook.EventInfo(MouseHook.WM_MOUSEWHEEL, 120, 0, 0)
  const CTRL_HELD: KeyStates := KeyStates(0x8000, 0, 0)
  const ALT_HELD: KeyStates := KeyStates(0, 0, 0x8000)
  const NONE_HELD: KeyStates := KeyStates(0, 0, 0)

  /** The gesture rule is found as the wheel rule. */
  lemma ZoomRuleSelected()
    ensures WheelRule([ZOOM_RULE]) == Some(ZOOM_RULE)
  {
    assert OccursAt(ZOOM_RULE.input, WHEEL_TOKEN, 5);
    ContainsAt(ZOOM_RULE.input, WHEEL_TOKEN);
  }

  /** With Ctrl held, the gesture rule's trigger is pressed and its output is not. */
  lemma CtrlHeldEngages()
    ensures ModPressed(ModifierName(ZOOM_RULE.input), CTRL_HELD)
    ensures !ModPressed(ModifierName(ZOOM_RULE.output), CTRL_HELD)
  {
    CtrlName();
    AltName();
  }

  /** A wheel event whose rule's trigger is held and output is not is blocked by both
      variants: as written the buffer then holds just that event's delta, in the corrected
      variant the delta is added to what was buffered. */
  lemma TriggerHeldBlocks(s: ObserverState, ev: MouseHook.EventInfo, mappings: seq<Rule>, ks: KeyStates, now: int)
    requires s.zoom.Some? && IsWheelMessage(ev.msg) && WheelRule(mappings).Some?
    requires ModPressed(ModifierName(WheelRule(mappings).value.input), ks)
    requires !ModPressed(ModifierName(WheelRule(mappings).value.output), ks)
    ensures var r := WheelStep(s, ev, true, mappings, Available(ks), now);
            r.0 == Block && r.1.zoom == Some(ZoomFields(now, ev.delta, true))
            && r.1.triggerKey == Some(ModifierName(WheelRule(mappings).value.input))
            && r.1.outputKey == Some(ModifierName(WheelRule(mappings).value.output))
    ensures var r := WheelStepIntended(s, ev, true, mappings, Available(ks), now);
            r.0 == Block && r.1.zoom == Some(ZoomFields(now, s.zoom.value.buffer + ev.delta, true))
  {
    var b := BindingOf(mappings);
    HookStepBlocks(s, ev, true, b, Available(ks), now, true);
    HookStepBlocked(s, ev, true, b, Available(ks), now, true);
    HookStepBlocks(s, ev, true, b, Available(ks), now, false);
    HookStepBlocked(s, ev, true, b, Available(ks), now, false);
  }

  /** A notch with Ctrl held under the gesture rule is blocked by both variants, and the
      as-written one records ctrl and alt for the worker. */
  lemma CtrlNotch(s: ObserverState, now: int)
    requires s.zoom.Some?
    ensures var r := WheelStep(s, NOTCH, true, [ZOOM_RULE], Available(CTRL_HELD), now);
            r.0 == Block && r.1.zoom == Some(ZoomFields(now, 120, true))
            && r.1.triggerKey == Some("ctrl") && r.1.outputKey == Some("alt")
    ensures var r := WheelStepIntended(s, NOTCH, true, [ZOOM_RULE], Available(CTRL_HELD), now);
            r.0 == Block && r.1.zoom == Some(ZoomFields(now, s.zoom.value.buffer + 120, true))
  {
    ZoomRuleSelected();
    CtrlHeldEngages();
    CtrlName();
    AltName();
    TriggerHeldBlocks(s, NOTCH, [ZOOM_RULE], CTRL_HELD, now);
  }

  /** As written, two notches blocked before the worker drains the buffer scroll by one
      notch only: 240 units were blocked, 120 remain to be injected. The corrected variant
      keeps both. */
  lemma AsWrittenLosesNotch(s: ObserverState, now: int)
    requires s.zoom == Some(ZOOM_RESET)
    ensures var r1 := WheelStep(s, NOTCH, true, [ZOOM_RULE], Available(CTRL_HELD), now);
            var r2 := WheelStep(r1.1, NOTCH, true, [ZOOM_RULE], Available(CTRL_HELD), now + 10);
            r1.0 == Block && r2.0 == Block && r2.1.zoom.value.buffer == 120
    ensures var r1 := WheelStepIntended(s, NOTCH, true, [ZOOM_RULE], Available(CTRL_HELD), now);
            var r2 := WheelStepIntended(r1.1, NOTCH, true, [ZOOM_RULE], Available(CTRL_HELD), now + 10);
            r1.0 == Block && r2.0 == Block && r2.1.zoom.value.buffer == 240
  {
    CtrlNotch(s, now);
    CtrlNotch(WheelStep(s, NOTCH, true, [ZOOM_RULE], Available(CTRL_HELD), now).1, now + 10);
    CtrlNotch(WheelStepIntended(s, NOTCH, true, [ZOOM_RULE], Available(CTRL_HELD), now).1, now + 10);
  }

  /** A misspelled gesture rule: "atl" is no key name the keyboard library knows. */
  const TYPO_RULE: Rule := Rule("ctrl+wheel", "atl+wheel", "gesture")

  /** "atl+wheel" names atl. */
  lemma AtlName()
    ensures ModifierName("atl+wheel") == "atl"
  {
    var m := "atl";
    assert Lower(m) == m by {
      forall i | 0 <= i < |m| ensures LowerChar(m[i]) == m[i] { }
    }
    assert m + WHEEL_SUFFIX == "atl+wheel";
    ModifierNameOf(m);
  }

  /** The misspelled rule is found as the wheel rule. */
  lemma TypoRuleSelected()
    ensures WheelRule([TYPO_RULE]) == Some(TYPO_RULE)
  {
    assert OccursAt(TYPO_RULE.input, WHEEL_TOKEN, 5);
    ContainsAt(TYPO_RULE.input, WHEEL_TOKEN);
  }

  /** A misspelled output name kills the worker while the hook keeps blocking: with Ctrl
      held a notch is blocked; the worker releases Ctrl, fails to press "atl" and dies;
      the next notch is blocked too, and the dead worker never scrolls it. */
  lemma MisspelledOutputKillsWorker(s: ObserverState, now: int, known: string -> bool)
    requires s.running && s.zoom.Some? && known("ctrl") && !known("atl")
    ensures var r1 := WheelStep(s, NOTCH, true, [TYPO_RULE], Available(CTRL_HELD), now);
            var w := WorkerStep(Idle, r1.1, now + 5, known, Available(NONE_HELD));
            var r2 := WheelStep(w.state, NOTCH, true, [TYPO_RULE], Available(CTRL_HELD), now + 10);
            && r1.0 == Block && w.phase == Crashed && w.actions == [Release("ctrl")]
            && r2.0 == Block && r2.1.zoom.value.buffer == 120
            && WorkerStep(w.phase, r2.1, now + 20, known, Available(NONE_HELD)).actions == []
  {
    TypoRuleSelected();
    CtrlName();
    AtlName();
    TriggerHeldBlocks(s, NOTCH, [TYPO_RULE], CTRL_HELD, now);
    var r1 := WheelStep(s, NOTCH, true, [TYPO_RULE], Available(CTRL_HELD), now);
    WheelStepFrame(s, NOTCH, true, [TYPO_RULE], Available(CTRL_HELD), now);
    var w := WorkerStep(Idle, r1.1, now + 5, known, Available(NONE_HELD));
    TriggerHeldBlocks(w.state, NOTCH, [TYPO_RULE], CTRL_HELD, now + 10);
  }

  // ---------------------------------------------------------------- hook and worker together

  /** What happens next: a mouse event reaches the hook, or the worker runs an iteration. */
  datatype SysEvent = Tick(ev: MouseHook.EventInfo, query: KeyQuery, now: int) | Work(now: int, query: KeyQuery)

  datatype Sys = Sys(obs: ObserverState, phase: WorkerPhase)

  /** Where a run ends, the key traffic the worker produced, and the wheel delta the hook
      blocked. */
  datatype Trace = Trace(last: Sys, actions: seq<KeyAction>, blocked: int)

  /** One event of the corrected system: the next state, the worker's key traffic, and the
      delta the hook blocked. */
  function SysStep(sys: Sys, e: SysEvent, active: bool, mappings: seq<Rule>, known: string -> bool): (r: Trace)
    requires sys.obs.zoom.Some?
    ensures r.last.obs.zoom.Some? && r.last.obs.running == sys.obs.running
    ensures sys.obs.running ==>
              WheelTotal(r.actions) + r.last.obs.zoom.value.buffer == sys.obs.zoom.value.buffer + r.blocked
  {
    match e
    case Tick(ev, query, now) =>
      var (v, s') := WheelStepIntended(sys.obs, ev, active, mappings, query, now);
      WheelStepIntendedFrame(sys.obs, ev, active, mappings, query, now);
      Trace(Sys(s', sys.phase), [], if v == Block then ev.delta else 0)
    case Work(now, query) =>
      var w := WorkerStep(sys.phase, sys.obs, now, known, query);
      Trace(Sys(w.state, w.phase), w.actions, 0)
  }

  /** Interleaved hook calls and worker iterations with the corrected callback. Every
      blocked delta is either scrolled by the worker or still in the buffer: nothing the
      user scrolled is lost while the observer runs. */
  function RunIntended(sys: Sys, events: seq<SysEvent>, active: bool, mappings: seq<Rule>, known: string -> bool): (t: Trace)
    requires sys.obs.zoom.Some?
    ensures t.last.obs.zoom.Some? && t.last.obs.running == sys.obs.running
    ensures sys.obs.running ==>
              WheelTotal(t.actions) + t.last.obs.zoom.value.buffer == sys.obs.zoom.value.buffer + t.blocked
    decreases |events|
  {
    if |events| == 0 then Trace(sys, [], 0)
    else
      var first := SysStep(sys, events[0], active, mappings, known);
      var rest := RunIntended(first.last, events[1..], active, mappings, known);
      WheelTotalAppend(first.actions, rest.actions);
      Trace(rest.last, first.actions + rest.actions, first.blocked + rest.blocked)
  }

  /** The gesture from the start: Ctrl + one notch is blocked; the worker swaps Ctrl for
      Alt and scrolls the notch. */
  lemma GestureStarts(s: ObserverState, now: int, known: string -> bool)
    requires s.running && s.zoom.Some? && known("ctrl") && known("alt")
    ensures var s1 := WheelStep(s, NOTCH, true, [ZOOM_RULE], Available(CTRL_HELD), now).1;
            var w1 := WorkerStep(Idle, s1, now + 5, known, Available(NONE_HELD));
            var w2 := WorkerStep(w1.phase, w1.state, now + 10, known, Available(NONE_HELD));
            && w1.phase == Zooming("ctrl", "alt") && w1.actions == [Release("ctrl"), Press("alt")]
            && w2.phase == Zooming("ctrl", "alt") && w2.actions == [Wheel(120)] && w2.state.zoom.value.buffer == 0
  {
    CtrlNotch(s, now);
    WheelStepFrame(s, NOTCH, true, [ZOOM_RULE], Available(CTRL_HELD), now);
  }

  /** The gesture's end: once Alt is held (by the worker), a further notch inside the
      sticky window passes through natively; after more than half a second without ticks
      the worker releases Alt and, Ctrl being up, releases Ctrl too. */
  lemma GestureEnds(s: ObserverState, now: int, known: string -> bool)
    requires s.running && s.debugCount >= DEBUG_EVENT_LIMIT && s.zoom == Some(ZoomFields(now, 0, true))
    requires known("ctrl") && known("alt")
    ensures var r := WheelStep(s, NOTCH, true, [ZOOM_RULE], Available(ALT_HELD), now + 100);
            var w := WorkerStep(Zooming("ctrl", "alt"), r.1, now + 700, known, Available(NONE_HELD));
            && r.0 == Allow && r.1.zoom.value.lastWheelTime == now + 100
            && w.phase == Idle && w.actions == [Release("alt"), Release("ctrl")]
  {
    ZoomRuleSelected();
    CtrlName();
    AltName();
    var b := BindingOf([ZOOM_RULE]);
    assert b == Some(WheelBinding("ctrl", "alt"));
    HookStepPassesThrough(s, NOTCH, b.value, ALT_HELD, now + 100, true);
  }

  // ---------------------------------------------------------------- hotkeys and lifecycle

  /** A registered hotkey fires: in a target application the output is injected, anywhere
      else the original combination is sent on unchanged. */
  function HandleHotkey(active: bool, src: string, dst: string, known: string -> bool,
                        query: KeyQuery, fallbackSends: bool): (t: seq<KeyAction>)
    ensures !active ==> t == [Send(src)]
    ensures active ==> t == Injector.Inject(dst, known, query, fallbackSends)
  {
    if active then Injector.Inject(dst, known, query, fallbackSends) else [Send(src)]
  }

  /** Ctrl+D mapped to Ctrl+J: in the target application, with no modifier held, the
      hotkey presses Ctrl and J and releases them in reverse order; elsewhere Ctrl+D itself
      is re-sent. */
  lemma HotkeyCtrlD(known: string -> bool)
    requires known("ctrl") && known("j")
    ensures HandleHotkey(true, "ctrl+d", "ctrl+j", known, Available(NONE_HELD), true)
              == [Press("ctrl"), Press("j"), Release("j"), Release("ctrl")]
    ensures HandleHotkey(false, "ctrl+d", "ctrl+j", known, Available(NONE_HELD), true) == [Send("ctrl+d")]
  {
    Injector.InjectCtrlJ(known, NONE_HELD);
  }

  /** What a fired hotkey does to the keyboard, for all inputs: outside a target
      application only the original combination is re-sent and nothing stays held; in one,
      when every name is accepted and the key states can be read, the explicit part
      releases every key it presses and anything after it is a raw re-press of a
      physically held modifier; when a name is rejected or the states cannot be read, no
      raw key-down is sent. */
  lemma HandleHotkeyOutcome(active: bool, src: string, dst: string, known: string -> bool,
                            query: KeyQuery, fallbackSends: bool)
    ensures var t := HandleHotkey(active, src, dst, known, query, fallbackSends);
            !active ==> Injector.HeldAfter(t, []) == Some([]) && forall a :: a in t ==> a.Send?
    ensures active && dst == "" ==> HandleHotkey(active, src, dst, known, query, fallbackSends) == []
    ensures var t := HandleHotkey(active, src, dst, known, query, fallbackSends);
            active && dst != "" && Injector.AllAccepted(dst, known) && query.Available? ==>
              exists n :: 0 <= n <= |t| && Injector.HeldAfter(t[..n], []) == Some([])
                          && forall a :: a in t[n..] ==> a.KeybdDown?
    ensures var t := HandleHotkey(active, src, dst, known, query, fallbackSends);
            active && dst != "" && (!Injector.AllAccepted(dst, known) || query.Unavailable?) ==>
              forall a :: a in t ==> !a.KeybdDown?
  {
    var t := HandleHotkey(active, src, dst, known, query, fallbackSends);
    if !active {
      assert Injector.HeldAfter(t, []) == Injector.HeldAfter([], []);
    } else if dst != "" {
      if Injector.AllAccepted(dst, known) && query.Available? {
        Injector.InjectNormalPath(dst, known, query.states, fallbackSends);
        var n := |Injector.Structured(dst)|;
        assert t[..n] == Injector.Structured(dst);
      } else {
        Injector.InjectFallback(dst, known, query, fallbackSends);
      }
    }
  }

  /** Rule `i` of `mappings` yields the keyboard binding `p`. */
  ghost predicate BindsAt(mappings: seq<Rule>, registrable: string -> bool, i: int, p: (string, string))
  {
    0 <= i < |mappings| && !Contains(mappings[i].input, WHEEL_TOKEN) && registrable(mappings[i].input)
    && p == (mappings[i].input, mappings[i].output)
  }

  /** The keyboard hotkeys a rule list registers, in rule order: every rule whose input
      does not mention "wheel", as (input, output), except those the keyboard library
      rejects. */
  function KeyBindings(mappings: seq<Rule>, registrable: string -> bool): (r: seq<(string, string)>)
    ensures |r| <= |mappings|
    ensures forall p :: p in r <==> exists i :: BindsAt(mappings, registrable, i, p)
    ensures forall p :: p in r ==> !Contains(p.0, WHEEL_TOKEN)
  {
    if |mappings| == 0 then []
    else
      var rule := mappings[0];
      var rest := KeyBindings(mappings[1..], registrable);
      var r := if !Contains(rule.input, WHEEL_TOKEN) && registrable(rule.input) then [(rule.input, rule.output)] + rest else rest;
      assert forall p :: p in r <==> exists i :: BindsAt(mappings, registrable, i, p) by {
        forall p ensures p in r <==> exists i :: BindsAt(mappings, registrable, i, p) {
          if p in rest {
            var i :| BindsAt(mappings[1..], registrable, i, p);
            assert mappings[1..][i] == mappings[i + 1];
            assert BindsAt(mappings, registrable, i + 1, p);
          } else if p in r {
            assert BindsAt(mappings, registrable, 0, p);
          }
          if exists i :: BindsAt(mappings, registrable, i, p) {
            var i :| BindsAt(mappings, registrable, i, p);
            if i > 0 {
              assert mappings[1..][i - 1] == mappings[i];
              assert BindsAt(mappings[1..], registrable, i - 1, p);
            }
          }
        }
      }
      r
  }

  /** Registering a concatenation registers the first list's hotkeys, then the second's. */
  lemma {:induction false} KeyBindingsAppend(m1: seq<Rule>, m2: seq<Rule>, registrable: string -> bool)
    ensures KeyBindings(m1 + m2, registrable) == KeyBindings(m1, registrable) + KeyBindings(m2, registrable)
  {
    if |m1| > 0 {
      assert (m1 + m2)[1..] == m1[1..] + m2;
      KeyBindingsAppend(m1[1..], m2, registrable);
    } else {
      assert m1 + m2 == m2;
    }
  }

  /** Hotkey registration: the keyboard bindings are added to those already registered,
      and a mouse hook is created and started only when some rule mentions "wheel" and no
      hook object exists yet. */
  function RegisterHotkeys(s: ObserverState, mappings: seq<Rule>, registrable: string -> bool): (r: (ObserverState, bool))
    ensures r.0.hotkeys == s.hotkeys + KeyBindings(mappings, registrable)
    ensures r.1 <==> !s.mouseHook && exists i :: 0 <= i < |mappings| && Contains(mappings[i].input, WHEEL_TOKEN)
    ensures r.0.mouseHook <==> s.mouseHook || exists i :: 0 <= i < |mappings| && Contains(mappings[i].input, WHEEL_TOKEN)
    ensures r.0.running == s.running && r.0.zoom == s.zoom && r.0.debugCount == s.debugCount
  {
    var needMouse := WheelRule(mappings).Some?;
    (s.(hotkeys := s.hotkeys + KeyBindings(mappings, registrable), mouseHook := s.mouseHook || needMouse),
     needMouse && !s.mouseHook)
  }

  /** Starting: a running observer is left alone; otherwise it is marked running and the
      context poller and the zoom worker are spawned. */
  function Start(s: ObserverState): (r: (ObserverState, bool))
    ensures r.0.running
    ensures r.1 <==> !s.running
    ensures r.0 == s.(running := true)
  {
    if s.running then (s, false) else (s.(running := true), true)
  }

  /** Stopping: the running flag drops (so the worker ends at its next check), every
      keyboard hotkey is removed, and the mouse hook is stopped if one exists. The hook
      object is kept, so later registrations do not start a new one. */
  function Stop(s: ObserverState): (r: (ObserverState, bool))
    ensures !r.0.running && r.0.hotkeys == []
    ensures r.1 <==> s.mouseHook
    ensures r.0.mouseHook == s.mouseHook && r.0.zoom == s.zoom
  {
    (s.(running := false, hotkeys := []), s.mouseHook)
  }

  /** Starting twice spawns the threads once. */
  lemma StartIdempotent(s: ObserverState)
    ensures Start(Start(s).0) == (Start(s).0, false)
  {
  }

  /** Registering the same rules twice starts at most one mouse hook. */
  lemma RegisterTwiceOneHook(s: ObserverState, mappings: seq<Rule>, registrable: string -> bool)
    ensures !RegisterHotkeys(RegisterHotkeys(s, mappings, registrable).0, mappings, registrable).1
  {
  }

  /** After a stop, a restart spawns the threads again, but re-registering wheel rules does
      not start a mouse hook once one was created: the stopped hook object stays. */
  lemma RestartAfterStop(s: ObserverState, mappings: seq<Rule>, registrable: string -> bool)
    requires s.mouseHook
    ensures Start(Stop(s).0).1
    ensures !RegisterHotkeys(Start(Stop(s).0).0, mappings, registrable).1
  {
  }

  /** Stopping as evidently intended: as `Stop`, and the stopped hook object is also
      forgotten, so that the next registration of a wheel rule installs a fresh hook. */
  function StopIntended(s: ObserverState): (r: (ObserverState, bool))
    ensures !r.0.running && r.0.hotkeys == [] && !r.0.mouseHook
    ensures r.1 <==> s.mouseHook
    ensures r.0.zoom == s.zoom
  {
    (s.(running := false, hotkeys := [], mouseHook := false), s.mouseHook)
  }

  /** The tray's profile switch and configuration reload: stop, register the new rules,
      start. Stopping ends any hook's message loop, so afterwards a mouse hook runs exactly
      when the registration started one; that flag is the second component. `forgets`
      selects `StopIntended` over `Stop`. */
  function Reload(s: ObserverState, mappings: seq<Rule>, registrable: string -> bool, forgets: bool): (r: (ObserverState, bool))
    ensures r.0.running
    ensures r.0.hotkeys == KeyBindings(mappings, registrable)
    ensures r.1 <==> (forgets || !s.mouseHook) && exists i :: 0 <= i < |mappings| && Contains(mappings[i].input, WHEEL_TOKEN)
  {
    var stopped := if forgets then StopIntended(s).0 else Stop(s).0;
    var registered := RegisterHotkeys(stopped, mappings, registrable);
    (Start(registered.0).0, registered.1)
  }

  /** As written, reloading an observer that once installed a mouse hook leaves every
      wheel rule without one: the hook is stopped, and registration skips it because the
      hook object still exists. */
  lemma ReloadLeavesWheelUnhooked(s: ObserverState, mappings: seq<Rule>, registrable: string -> bool)
    requires s.mouseHook
    ensures Stop(s).1
    ensures !Reload(s, mappings, registrable, false).1
    ensures Reload(s, mappings, registrable, false).0.mouseHook
  {
  }

  /** With the hook forgotten on stop, a reload runs a mouse hook exactly when the new
      rules contain a wheel rule, whatever happened before. */
  lemma ReloadReinstallsHook(s: ObserverState, mappings: seq<Rule>, registrable: string -> bool)
    ensures Reload(s, mappings, registrable, true).1 <==> WheelRule(mappings).Some?
  {
  }

  /** As written, a freshly started observer's worker dies on its first iteration: the
      zoom fields it polls do not exist until something has been logged. */
  lemma WorkerDiesBeforeFirstLog(now: int, known: string -> bool, query: KeyQuery)
    ensures WorkerStep(Idle, Start(NewObserver()).0, now, known, query).phase == Crashed
  {
  }

  /** With the fields initialised at construction the started worker idles until a
      session begins, and stops once the observer stops. */
  lemma WorkerIdlesWhenInitialised(now: int, known: string -> bool, query: KeyQuery)
    ensures var s := Start(NewObserverIntended()).0;
            WorkerStep(Idle, s, now, known, query) == WorkerResult(Idle, s, [])
    ensures var s := Stop(Start(NewObserverIntended()).0).0;
            WorkerStep(Idle, s, now, known, query).phase == Stopped
  {
  }
}
