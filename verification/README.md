# Project Babel — a Dafny model of the shortcut-translation core

Project Babel lets a designer keep Figma shortcuts while working in Photoshop (and the
other way round). A semantic action catalog says which native command each
application uses for an action. The user's profile says which application's shortcut
(or which `custom:` combination) should trigger it. A keyboard hotkey or a low-level
mouse hook intercepts the trigger in the target application and injects the native
command instead. The best-known case is the zoom gesture: Ctrl + wheel becomes
Alt + wheel, driven by a background worker. A browser extension reports over a local
WebSocket which web design tool the active tab shows.

This project models that core as pure Dafny functions over immutable data and proves
what the code promises:

- `Config`: the configuration manager's in-memory defaults and accessors.
- `ActionMapper`: context normalisation, rule generation from the catalog, the cache,
  and the trigger registry.
- `Translator`: trigger parsing and first-match translation with exact modifier sets.
- `Injector`: explicit injection with balanced presses and releases, the modifier
  restore, and the fallback.
- `MouseHook`: the hook procedure and signed 16-bit wheel-delta decoding.
- `Observer`:
  - the wheel-hook decision;
  - the zoom worker as a state machine;
  - hotkey dispatch and registration;
  - start and stop;
  - the debug logger's side effect on the zoom fields.
- `WebListener`: the WebSocket handler's state updates and the connection-drop reset.
- `Bridge`: the extension's URL classification and context payload.

Shared modules:

- `Types`: `Option`, rules, ordered dictionaries.
- `Strings`: Python's `str` operations on `seq<char>`.
- `Keys`: key actions, key states, total wheel output.

Inputs the code reads from the outside world become parameters:

- Wall-clock time is an integer `now` in milliseconds, so the 0.5 s windows become 500.
- The context poller's verdict is a boolean `active`.
- `GetAsyncKeyState` results are a `KeyQuery`, which may be `Unavailable` when the call
  raises.
- The keyboard library's acceptance of a key name is a predicate `known` (or
  `registrable`).

Each thread iteration or callback is one atomic step. A run of the observer is an
interleaving of hook steps and worker steps (`Observer.RunIntended`).

## Model

| member | source | states |
|---|---|---|
| Types.DictGetDistinct | src/config/config_manager.py:63-65 | in a dictionary with distinct keys, looking a key up yields a value iff that pair is stored |
| Strings.ContainsAt | src/core/action_mapper.py:23 | `sub in s` holds exactly when `sub` occurs at some index of `s` |
| Strings.Lower | src/core/translator.py:25 | lower-casing keeps the length, leaves no capital letter, maps each capital to its small letter and keeps every other character |
| Strings.LowerIdempotent | src/core/translator.py:61 | lower-casing an already lower-cased name changes nothing |
| Strings.Strip | src/core/action_mapper.py:61 | `strip()` returns a slice with no whitespace at either end, and everything it cut away is whitespace |
| Strings.StripUnpadded | src/core/observer.py:142 | a string with no whitespace at either end strips to itself |
| Strings.Split | src/core/translator.py:30 | `split('+')` yields at least one piece, and no piece contains the separator |
| Strings.JoinSplit | src/core/injector.py:64 | joining the pieces of a split with the same separator rebuilds the string |
| Strings.SplitJoin | src/core/injector.py:64 | splitting a join of separator-free pieces gives back the pieces |
| Strings.ReplaceAllSuffix | src/core/observer.py:142 | `(m + "+wheel").replace("+wheel", "")` is `m` when `m` has no `+` |
| Config.DefaultConfig | src/config/config_manager.py:11-14 | the pre-load configuration has exactly the keys `active_profile` (the Figma-to-Photoshop profile) and `custom_overrides_enabled` (true) |
| Config.GetUserProfile | src/config/config_manager.py:55-68 | the profile stored under the active name if there is one, else the first stored profile, else the empty profile |
| Config.AppsOf | src/config/config_manager.py:70-81 | an application is supported iff some action has a command for it, `type` excluded |
| Config.SetActiveProfile | src/config/config_manager.py:91-95 | switching writes the new name under `active_profile` and changes no other configuration key or document |
| Config.GetSystemDefinitions | src/config/config_manager.py:52-53 | the loaded semantic catalog when there is one; before loading, a catalog with no actions |
| Config.GetSemanticTargets | src/config/config_manager.py:70-81 | an application is listed iff some catalog action has a command for it, `type` excluded |
| Config.GetActiveProfileTargets | src/config/config_manager.py:97-99 | the stored target list, or none when nothing is stored |
| Config.GetActiveMappings | src/config/config_manager.py:101-103 | the stored mapping list, or none when nothing is stored |
| Config.SwitchKeepsLegacyData | src/config/config_manager.py:91-103 | switching profile changes neither the targets nor the mappings these accessors return |
| Config.IsRuleEnabled | src/config/config_manager.py:105-114 | every rule id counts as enabled |
| Config.SwitchThenRead | src/config/config_manager.py:91-95 | after switching to a stored profile, reading the user profile returns that profile |
| Config.FreshManager | src/config/config_manager.py:11-22 | before any file is read: default profile name, empty user profile, no supported applications, no targets and no mappings |
| ActionMapper.ContextKey | src/core/action_mapper.py:22-29 | an application id maps to photoshop iff its lower case mentions photoshop; otherwise to figma iff it mentions figma; otherwise it is unknown |
| ActionMapper.ResolveTrigger | src/core/action_mapper.py:55-69 | a `custom:` preference yields the stripped text after the prefix; any other preference yields that application's command; an empty trigger means no rule |
| ActionMapper.BuildRules | src/core/action_mapper.py:47-80 | the rules are exactly the rules of the actions that have both a target command and a trigger, and there are no more rules than actions |
| ActionMapper.BuildRulesAppend | src/core/action_mapper.py:47-80 | rule generation follows catalog order: the rules of a concatenated catalog are the concatenated rules |
| ActionMapper.SkippedAction | src/core/action_mapper.py:49-52 | an action with no command for the context, or with no trigger, contributes nothing and disturbs no other rule |
| ActionMapper.RulesShape | src/core/action_mapper.py:67-80 | every rule outputs some action's non-empty command for the context, is triggered by that action's non-empty trigger, and carries its type (default `key`) |
| ActionMapper.DefaultPreferenceRule | src/core/action_mapper.py:55 | an action with no user preference is triggered by its Figma command |
| ActionMapper.GetMappingsForContext | src/core/action_mapper.py:10-84 | an unknown context gives no rules and leaves the cache alone; a cache hit returns the cached rules; otherwise the rules are built from the configuration and cached under the context key |
| ActionMapper.ClearCache | src/core/action_mapper.py:117-119 | clearing forgets the cached context and rules |
| ActionMapper.ClearedCacheRebuilds | src/core/action_mapper.py:117-119 | after clearing, the next request for a known context rebuilds from the configuration |
| ActionMapper.RepeatedRequestStable | src/core/action_mapper.py:31-34 | two consecutive requests for the same context, configuration unchanged, return the same rules |
| ActionMapper.InsertAllLastWins | src/core/action_mapper.py:108-113 | a trigger is registered iff some entry has it, and it holds the metadata of the last such entry |
| ActionMapper.AllTriggersLastWins | src/core/action_mapper.py:86-115 | a lower-cased trigger is registered iff some action resolves to it, and the last such action in catalog order wins |
| ActionMapper.AllTriggersEveryKey | src/core/action_mapper.py:86-115 | for every key at once: registered iff some action resolves to it, holding the last such action's metadata |
| ActionMapper.GetAllConfiguredTriggers | src/core/action_mapper.py:86-115 | the registry read from the configuration holds exactly the lower-cased triggers of the catalog's actions, each with the metadata of the last action resolving to it |
| ActionMapper.ContextRulesRegistered | src/core/action_mapper.py:86-115 | every trigger a context's rules use is registered (lower-cased) for hook registration |
| Translator.ParseTriggerRoundTrip | src/core/translator.py:25-32 | parsing `m1+...+mn+key`, written out from lower-case parts without `+`, gives back the modifier set and the key |
| Translator.ParseRule | src/core/translator.py:25-42 | a parsed rule keeps the output verbatim and the lower-cased input as original; neither its key nor any modifier contains `+` |
| Translator.LoadRules | src/core/translator.py:21-47 | entries are parsed in order; loading stops at the first entry missing its input or output, and the rules already parsed remain |
| Translator.Translate | src/core/translator.py:49-83 | only key-down events translate; a result is the output of the first rule whose key and exact modifier set match; no result means no rule matches |
| Translator.ExactModifiers | src/core/translator.py:80 | a rule never fires for a modifier set different from its own, larger sets included |
| Translator.ParseEsc | src/core/translator.py:30-32 | `esc` parses to no modifiers and key esc |
| Translator.ParseCtrlShiftZ | src/core/translator.py:29-32 | `ctrl+shift+z` parses to modifiers {ctrl, shift} and key z |
| Translator.CtrlD | src/core/translator.py:30-32 | `ctrl+d` parses to modifier ctrl and key d |
| Translator.TestRulesParsed | tests/test_translation.py:24-34 | the test rules are the parses of ctrl+d -> ctrl+j and esc -> ctrl+d |
| Translator.TranslationTests | tests/test_translation.py:24-46 | ctrl+d gives ctrl+j; esc gives ctrl+d; ctrl+a and alt+d give nothing |
| Translator.TranslateTwo | tests/test_translation.py:24-46 | the same four outcomes for any engine holding those two rules |
| Injector.ParseCombo | src/core/injector.py:62-65 | the modifiers and the key join back to the command, and none of them contains `+` |
| Injector.ParseComboRoundTrip | src/core/injector.py:62-65 | parsing a written-out combo gives back its modifiers, in order, and its key |
| Injector.ParseComboExample | src/core/injector.py:63 | `ctrl+shift+z` splits into [ctrl, shift] and z |
| Injector.PressAllPushes | src/core/injector.py:22-23 | pressing the modifiers one by one pushes them, in the order given, on the keys held |
| Injector.ReleaseReversedPops | src/core/injector.py:33-34 | releasing the modifiers in reverse order pops exactly the keys pressed last |
| Injector.StructuredBalanced | src/core/injector.py:19-35 | the explicit injection releases every key it presses, last pressed first released, and leaves nothing held |
| Injector.StructuredKeysOnly | src/core/injector.py:19-35 | the explicit injection consists of presses and releases only |
| Injector.Restore | src/core/injector.py:37-51 | the restore sends raw key-downs of control, shift and alt only, one for exactly each of them physically held, in that order |
| Injector.AcceptedPrefix | src/core/injector.py:14-35 | the library performs the accepted actions up to the first name it rejects |
| Injector.Inject | src/core/injector.py:15-16 | an empty command injects nothing |
| Injector.InjectNormalPath | src/core/injector.py:19-51 | when every key name is accepted and the key states are readable, the trace is the balanced explicit injection followed by key-downs only |
| Injector.InjectFallback | src/core/injector.py:54-60 | when a name is rejected or the state query fails, the trace is the part of the explicit injection that was performed, then `send(command)` when that succeeds, and never a restore key-down |
| Injector.InjectCtrlJ | src/core/injector.py:19-51 | with no modifier held, ctrl+j is press ctrl, press j, release j, release ctrl |
| MouseHook.ToSigned16 | src/core/mouse_hook.py:54 | a 16-bit word read as a signed short lies in [-32768, 32767] and equals the word modulo 2^16 |
| MouseHook.WheelDelta | src/core/mouse_hook.py:54 | the delta is the high word of `mouseData` read as a signed short |
| MouseHook.SignedRoundTrip | src/core/mouse_hook.py:54 | reading a word as signed and writing it back in two's complement gives back the word |
| MouseHook.DeltaRoundTrip | src/core/mouse_hook.py:54 | the delta re-encodes to exactly the high word, and the low word does not affect it |
| MouseHook.DeltaExamples | src/core/mouse_hook.py:54 | one notch forward reads as 120, one notch back as -120 |
| MouseHook.HookCallback | src/core/mouse_hook.py:44-66 | a negative code passes the event on without calling the callback; otherwise the event is swallowed exactly when the callback returns false, and a raising callback passes it on |
| Observer.NewObserverIntended | src/core/observer.py:26-30 | the observer with the zoom fields set at construction: zero time, empty buffer, no session, not running, nothing registered |
| Observer.LogDebug | src/core/observer.py:17-30 | as written, every log call resets the last tick time, the buffer and the session flag, and touches nothing else |
| Observer.WheelRule | src/core/observer.py:136-139 | the wheel rule is the first rule whose input mentions `wheel`; there is none iff no rule does |
| Observer.ModPressed | src/core/observer.py:149-156 | only ctrl, alt and shift can be reported held, each by its own key state |
| Observer.BindingOf | src/core/observer.py:142-143 | a binding exists iff a wheel rule exists, and it names the modifiers of that rule's two sides |
| Observer.HookStep | src/core/observer.py:110-186 | non-wheel events, an inactive context, no wheel rule and a failing key query all allow the event; a blocked tick leaves the session active with the tick's time |
| Observer.HookStepBlocks | src/core/observer.py:110-186 | for any binding, a tick is blocked iff it is a wheel event in an active context, the key states are readable, the zoom fields exist, the trigger is held or the tick is sticky, and the output is not held |
| Observer.HookStepBlocked | src/core/observer.py:167-178 | a blocked tick records the binding and sets the time to now with the session active; the buffer gets the delta added on top of nothing when logging resets the fields, else on top of the old buffer |
| Observer.HookStepAllowedKeepsBuffer | src/core/observer.py:179-182 | without the logging reset, an allowed tick keeps the buffer and the session flag |
| Observer.HookStepPassesThrough | src/core/observer.py:167-180 | once logging is exhausted, an engaged tick with the output already held is allowed and only refreshes the last tick time |
| Observer.HookStepNotEngaged | src/core/observer.py:167-182 | a tick with neither the trigger held nor the sticky window open is allowed, and only the per-event logging touches the state |
| Observer.HookStepFrame | src/core/observer.py:112-124 | the callback never changes the running flag, hotkeys or hook, never discards the zoom fields, and once logging is exhausted ignores non-wheel events |
| Observer.WheelStep | src/core/observer.py:110-186 | as written, non-wheel events, an inactive context, no wheel rule and a failing key query all allow the event, and a blocked tick leaves a buffer holding only its own delta |
| Observer.WheelStepBlocks | src/core/observer.py:123-180 | the as-written callback blocks iff every condition for zooming holds, evaluated after the per-event log |
| Observer.WheelStepRecordsKeys | src/core/observer.py:173-177 | a blocked tick records the wheel rule's trigger and output names for the worker |
| Observer.WheelStepFrame | src/core/observer.py:110-124 | the as-written callback keeps the running flag, hotkeys and hook, and ignores non-wheel events once logging is exhausted |
| Observer.WheelStepIntended | src/core/observer.py:167-180 | the corrected callback adds a blocked delta to the buffer, and an allowed tick keeps the buffer and the session flag |
| Observer.WheelStepIntendedBlocks | src/core/observer.py:123-180 | the corrected callback blocks under the same conditions, judged on the fields as they stood before the event |
| Observer.WheelStepIntendedFrame | src/core/observer.py:110-186 | the corrected callback keeps the running flag, hotkeys and hook |
| Observer.OnMouse | src/core/mouse_hook.py:44-66 | the installed hook procedure passes negative codes on untouched and otherwise answers as the generic hook procedure does, given the observer's verdict, leaving the observer as the callback leaves it |
| Observer.ExitActions | src/core/observer.py:243-257 | leaving zoom releases the output, then presses the trigger iff it is physically held and releases it otherwise; nothing is scrolled |
| Observer.ExitTrace | src/core/observer.py:243-257 | the exit's key traffic: the whole exit when every name is accepted and the states read, only the output's release when the read or the trigger raises, nothing when the output is rejected |
| Observer.EntryTrace | src/core/observer.py:214-216 | entering releases the trigger and presses the output, stopping at the first rejected name |
| Observer.WorkerStep | src/core/observer.py:188-261 | an active session swaps trigger for output (defaults ctrl and alt), and a rejected name kills the worker; while running, every drained unit is scrolled; the session leaves zooming iff nothing is buffered and more than 0.5 s has passed, reaching idle iff the exit completes and dying otherwise with the buffer kept; a worker polling absent fields dies |
| Observer.ModifierNameOf | src/core/observer.py:142-143 | a rule side `m+wheel` names the modifier `m` |
| Observer.CtrlName | src/core/observer.py:142 | `ctrl+wheel` names ctrl |
| Observer.AltName | src/core/observer.py:143 | `alt+wheel` names alt |
| Observer.ZoomRuleSelected | src/core/observer.py:136 | the gesture rule ctrl+wheel -> alt+wheel is selected as the wheel rule |
| Observer.CtrlHeldEngages | src/core/observer.py:158-159 | with ctrl held, the gesture rule's trigger counts as pressed and its output does not |
| Observer.TriggerHeldBlocks | src/core/observer.py:167-178 | a wheel tick with the trigger held and the output up is blocked by both variants, with the buffers each one keeps |
| Observer.CtrlNotch | src/core/observer.py:167-178 | a notch under ctrl is blocked, and ctrl and alt are recorded for the worker |
| Observer.AsWrittenLosesNotch | src/core/observer.py:26-30 | as written, two notches blocked before the worker drains leave 120 units to scroll, not 240; the corrected callback keeps 240 |
| Observer.AtlName | src/core/observer.py:143 | `atl+wheel` names atl |
| Observer.TypoRuleSelected | src/core/observer.py:136 | the rule ctrl+wheel -> atl+wheel is selected as the wheel rule |
| Observer.MisspelledOutputKillsWorker | src/core/observer.py:167-216 | with an output name the keyboard library rejects, a ctrl notch is blocked, the worker releases ctrl and dies, and a later notch is still blocked and never scrolled |
| Observer.SysStep | src/core/observer.py:167-231 | one event of the corrected system keeps the balance: scrolled output plus buffer equals the old buffer plus what was blocked |
| Observer.RunIntended | src/core/observer.py:167-231 | over any interleaving of hook and worker steps while running, every blocked delta is either scrolled or still buffered |
| Observer.GestureStarts | src/core/observer.py:201-230 | ctrl + notch is blocked; the worker releases ctrl, presses alt, and scrolls the notch |
| Observer.GestureEnds | src/core/observer.py:179-257 | with alt held, a further notch passes through; after 0.5 s of quiet the worker releases alt and then ctrl |
| Observer.HandleHotkeyOutcome | src/core/observer.py:263-270 | elsewhere only the original combination is re-sent and nothing stays held; in a target application with every name accepted and readable key states, the explicit part releases all it presses and the rest are raw re-presses; otherwise no raw key-down is sent |
| Observer.HotkeyCtrlD | src/core/observer.py:263-270 | ctrl+d mapped to ctrl+j injects ctrl+j in the target application and re-sends ctrl+d elsewhere |
| Observer.KeyBindings | src/core/observer.py:87-100 | a hotkey is registered iff some rule has it as input, does not mention `wheel`, and the library accepts it |
| Observer.KeyBindingsAppend | src/core/observer.py:87-100 | hotkeys are registered in rule order |
| Observer.RegisterHotkeys | src/core/observer.py:77-108 | the keyboard hotkeys are added; a mouse hook is started iff some rule mentions `wheel` and no hook object exists yet |
| Observer.RegisterTwiceOneHook | src/core/observer.py:103 | registering the same rules twice starts at most one mouse hook |
| Observer.Start | src/core/observer.py:46-58 | starting a running observer does nothing; otherwise it is marked running and the threads are spawned |
| Observer.StartIdempotent | src/core/observer.py:48-49 | starting twice spawns the threads once |
| Observer.Stop | src/core/observer.py:60-65 | stopping clears the running flag and every hotkey, and stops the mouse hook iff one exists, keeping the hook object |
| Observer.RestartAfterStop | src/core/observer.py:60-108 | a restart after a stop spawns the threads again, but re-registering does not start a new mouse hook |
| Observer.StopIntended | src/core/observer.py:60-65 | the corrected stop: as the written one, and the hook object is forgotten |
| Observer.Reload | src/ui/tray_icon.py:126-128 | stop, register, start leaves the observer running with just the new rules' hotkeys, and a mouse hook runs afterwards iff the new rules have a wheel rule and no hook object survived the stop |
| Observer.ReloadLeavesWheelUnhooked | src/core/observer.py:60-108 | as written, once a hook was installed a reload stops it and installs none, whatever the new rules |
| Observer.ReloadReinstallsHook | src/core/observer.py:60-108 | with the corrected stop, a reload runs a mouse hook iff the new rules have a wheel rule |
| Observer.WorkerDiesBeforeFirstLog | src/core/observer.py:201-205 | as written, a freshly started observer's worker dies on its first poll |
| Observer.WorkerIdlesWhenInitialised | src/core/observer.py:201-205 | with the fields set at construction, the started worker idles, and it ends once the observer stops |
| WebListener.Start | src/core/web_listener.py:16-24 | starting a running listener does nothing; otherwise it is marked running and the server is spawned |
| WebListener.Stop | src/core/web_listener.py:26-32 | stopping only clears the flag |
| WebListener.AnnouncedApp | src/core/web_listener.py:62-66 | a `null` or missing app means no application; any other app is taken as is |
| WebListener.HandleMessage | src/core/web_listener.py:61-68 | a context change records the announced application and the time; any other message changes nothing; the listener never holds the literal `null` |
| WebListener.Processed | src/core/web_listener.py:57-59 | the handler processes the frames before the first undecodable one |
| WebListener.ConsumeLatest | src/core/web_listener.py:58-68 | after a run of messages the listener holds the last context change's application and time, or is unchanged if there was none |
| WebListener.HandleConnection | src/core/web_listener.py:55-76 | when a connection ends, however it ends, the active application is cleared; the time is that of the last processed change |
| WebListener.GetActiveWebApp | src/core/web_listener.py:34-40 | the accessor returns the application the listener holds |
| WebListener.ActiveAppIgnoresAge | src/core/web_listener.py:34-40 | there is no staleness check: the answer depends neither on the time of the last update nor on the running flag |
| WebListener.ActiveAppDuringAndAfter | src/core/web_listener.py:34-40 | during a connection the active web app is the one most recently announced, never `null`; after it, none |
| Bridge.DetectApp | babel_bridge/background.js:57-69 | a tab is Figma iff its URL mentions a Figma file or design page, else Photoshop iff it mentions Photoshop on the web, else `null` |
| Bridge.SendContext | babel_bridge/background.js:46-54 | a payload is sent iff the socket is open, and it is a context change carrying the application and the URL |
| Bridge.TabReachesListener | babel_bridge/background.js:46-69 | end to end, the listener holds no application exactly when the tab shows no design tool, and holds the detected one otherwise |
| Bridge.DetectExamples | babel_bridge/background.js:57-62 | a Figma design URL is Figma; a missing or empty URL is `null` |

## Left out

- User interface and entry point (`src/ui/`, `src/main.py`): the tray icon and editor
  window only call into the core; `main` wiring is not modelled.
- `src/core/context.py` is not part of this model. Its `is_target_active` takes no
  targets argument, so the call at `src/core/observer.py:38` raises `TypeError`. The
  poller catches the error and the flag stays `False`. The model takes the flag as the
  input `active`, so both the broken and a working poller are covered. The poller's
  logging on a change is left out with it.
- File I/O: reading and saving `config.json`, `semantic_config.json` and mapping files;
  the debug log file write. The configuration is a value of the model, and loading is
  not modelled. The log file write is left out; its side effect on the zoom fields is
  modelled.
- `active_profile_data` is never populated in this revision of `ConfigManager`. A fresh
  manager therefore has no mappings. The observer's steps take the rule list as a
  parameter, so they describe any profile.
- The test mapping file `figma_to_photoshop.json` is not part of this model. The test
  rules (ctrl+d -> ctrl+j, esc -> ctrl+d) are taken from the test's own comments.
- Threads, locks and sleeps: each callback and each worker iteration is an atomic step.
  Interleavings are modelled at step granularity. Races inside a step are not modelled.
- Floating point: `delta / 120.0` is replaced by the integer delta scrolled
  (`Wheel(d)`). Times are integer milliseconds rather than float seconds.
- The Windows message pump, `SetWindowsHookEx` and thread ids in `mouse_hook.py`: only the
  callback is modelled.
- WebSocket transport, JSON decoding and the asyncio loop. Frames arrive decoded, and a
  frame that does not decode stops the handler. An `event`/`app` that is present but
  not a string is not modelled.
- The extension's socket connection, reconnect timer and `chrome.tabs` listeners: the
  model takes the URL and the socket's open state as inputs.
- `Strings.Lower`: folds ASCII letters only. Python's `str.lower` also folds non-ASCII
  letters, so names outside ASCII are not modelled.
- `Injector.Inject`: its own contract states only the empty-command case. The normal
  and fallback paths are stated in `Injector.InjectNormalPath` and
  `Injector.InjectFallback`.
- `WebListener.Consume`: its own contract states only that the running flag is kept.
  What it computes is stated in `WebListener.ConsumeLatest`.
- `Observer.WheelStep`: its own contract states the fail-open cases and the buffer after
  a block. The exact blocking condition is in `Observer.WheelStepBlocks`.
- Ordered dictionaries (`Types.OrderedDict`) are association lists read first-match. A
  JSON object read by `json.load` keeps only the last value of a repeated key; the model
  assumes the keys are distinct, where `Types.DictGetDistinct` shows the two readings agree.
- Console diagnostics (`print`) in every module: they have no effect on the state.
- `Config.GetSemanticTargets` returns a set: the source converts its set to a list in
  an unspecified order.

## Findings

| source | as written | input that shows it | evidently intended | confidence | as-written member | corrected member |
|---|---|---|---|---|---|---|
| src/core/observer.py:26-30 | The zoom fields are assigned inside `log_debug`, after the file write. The blocked-tick path calls `log_debug` (line 168) just before adding to the buffer (line 174). Each blocked tick therefore zeroes the buffer first. | Two wheel notches with Ctrl held, 10 ms apart, both before the worker drains: 240 units are blocked, but the buffer holds 120. | The fields are initialised once, in the constructor, and each blocked tick adds its delta to what is buffered. Every blocked delta is then scrolled or still buffered. | not executed | Observer.AsWrittenLosesNotch | Observer.RunIntended |
| src/core/observer.py:26-30 | The zoom fields do not exist until `log_debug` first runs. `start` spawns the worker, whose first poll (line 203) reads `zoom_active` and raises when nothing has been logged yet. This is always the case when no wheel rule installed the mouse hook. | `start()` on a new observer before any mouse event or context change was logged. | The worker idles until a session begins and ends when the observer stops. | not executed | Observer.WorkerDiesBeforeFirstLog | Observer.WorkerIdlesWhenInitialised |
| src/core/observer.py:60-65, 103 | `stop` stops the mouse hook's message loop, which unhooks it, but keeps `_mouse_hook`. `register_hotkeys` creates a hook only when that attribute is missing. The tray's profile switch and reload (src/ui/tray_icon.py:126-128, 139-141) run stop, register, start. | An observer with a wheel rule registered, then a profile switch to rules that still contain the wheel rule: no mouse hook runs afterwards, and the gesture no longer works. | Stopping forgets the hook object, so the next registration installs a fresh hook whenever a wheel rule is present. | not executed | Observer.ReloadLeavesWheelUnhooked | Observer.ReloadReinstallsHook |
