# Screen reader playback controller

A Dafny model of the playback controller inside the `ScreenReader` React component,
which drives the browser's `window.speechSynthesis` engine from a text box, a rate
slider, an optional voice picker and Read / Pause / Resume / Stop buttons. The
repository has two variants of the component, and both are modelled:

- `screenreadervoice.js` (module `VoiceReader`): the voice-aware variant. The speaking
  flag is set only by the engine's `onstart` notification. It is cleared by `onend` and
  by `stopReading`.
- `screenreader.js` (module `BasicReader`): the older variant. It sets the flag
  optimistically right after `speak`. It is cleared by `onend` and by `stopReading`.

Each component is a class (`ScreenReader`) whose fields are the component's state
variables (`text`, `rate`, `isSpeaking`, plus `voices` and `selectedVoice` in the voice
variant) and a command log `log: seq<Cmd>` recording every call on the engine
(`Cancel`, `Speak(u)`, `Pause`, `Resume`). Every handler is a method that updates the
fields and appends to the log. Engine notifications are methods the environment may
call at any time. Each one receives the utterance it belongs to, and the handlers
ignore that argument, as the code does.

Shared pieces:
- `JsString` gives `String.prototype.trim` over ECMAScript's whitespace and line
  terminators. It proves that `trim() === ""` holds exactly for the strings made only of
  whitespace (`IsBlank`).
- `Engine` gives voices, utterances and commands, the protocol "every `speak` comes right
  after a `cancel`", and `Outstanding`. `Outstanding` is the list of utterances submitted
  since the last `cancel`, which is what the engine's queue can still hold. Under the
  protocol, at most one utterance is ever outstanding.

Every handler keeps the class invariant `Valid()`. In both classes it states that the
log follows the cancel-before-speak protocol. In `VoiceReader` it also states that the
selected voice is absent or belongs to the current snapshot. `OneLiveRequest` in each
module turns the protocol into "at most one utterance outstanding" for a component. Scenario methods build a fresh component, drive it through
a sequence of handlers and notifications, and state the resulting commands and flags.

Where the code does not do what a reader might expect, the model follows the code:
- Callbacks are not tied to the request they belong to. A late `onend` from a superseded
  utterance clears the flag while a newer utterance is live (`VoiceReader.StaleEndScenario`,
  `BasicReader.StaleEndScenario`).
- The rate is not clamped. The 0.5 to 2 range exists only on the slider.
- A voice-list refresh always resets the selection to the first voice, even when the
  previous choice is still offered (`VoiceReader.RefreshResetsChoiceScenario`).
- There is no paused state. Pause and resume only forward to the engine.
- An engine error does not clear the flag. `onerror` only logs.
- Teardown cancels the engine and changes nothing else.

## Model

| member | source | states |
|---|---|---|
| JsString.TrimStart | screenreadervoice.js:36 | the result is the suffix of the input left after a run of whitespace, and it does not start with whitespace |
| JsString.TrimEnd | screenreadervoice.js:36 | the result is the prefix of the input before a run of whitespace, and it does not end with whitespace |
| JsString.TrimEmptyIffBlank | screenreadervoice.js:36 | `trim()` gives the empty string if and only if every character is whitespace |
| Engine.Outstanding | screenreadervoice.js:37-49 | every utterance still queued at the engine was submitted by a `speak` in the log |
| Engine.CancelSpeakKeepsProtocol | screenreadervoice.js:37-49 | appending `cancel` then `speak` keeps "every speak directly follows a cancel" |
| Engine.ControlKeepsProtocol | screenreadervoice.js:52-63 | appending `cancel`, `pause` or `resume` keeps the protocol |
| Engine.OutstandingAfterRestart | screenreadervoice.js:37-49 | after `cancel` then `speak(u)`, exactly `u` is outstanding, whatever was queued before |
| Engine.OutstandingAfterControl | screenreadervoice.js:52-58 | `pause` and `resume` neither add nor drop outstanding utterances |
| Engine.OutstandingAfterCancel | screenreadervoice.js:60-63 | after `cancel`, nothing is outstanding |
| Engine.AtMostOneOutstanding | screenreadervoice.js:37-49 | under the protocol, at most one utterance is ever outstanding, so no two `speak` calls overlap |
| VoiceReader.FindByName | screenreadervoice.js:81 | the picker lookup gives none iff no voice has the name, and otherwise the first voice in the list with that name |
| VoiceReader.FirstVoice | screenreadervoice.js:25 | the default selection is the first voice if the list is non-empty, and none otherwise |
| VoiceReader.ScreenReader.constructor | screenreadervoice.js:5-33 | on mount: empty text, rate 1, not speaking, no commands sent, voices from the engine with the first one selected |
| VoiceReader.ScreenReader.LoadVoices | screenreadervoice.js:22-26 | the snapshot is replaced and the selection becomes its first voice or none; nothing else changes |
| VoiceReader.ScreenReader.PickVoice | screenreadervoice.js:81 | the selection becomes the voice found by name (or none) and stays within the snapshot; nothing else changes |
| VoiceReader.ScreenReader.SetText | screenreadervoice.js:73 | only the text changes |
| VoiceReader.ScreenReader.SetRate | screenreadervoice.js:107 | only the rate changes, to exactly the given value |
| VoiceReader.ScreenReader.StartReading | screenreadervoice.js:35-50 | blank text sends nothing; otherwise exactly `cancel` then one `speak` of the current text, rate and selected voice, which is then the only outstanding utterance; no state variable, including the flag, changes |
| VoiceReader.ScreenReader.ClickRead | screenreadervoice.js:92 | the Read button is only enabled while the flag is clear, and it then behaves as `startReading` |
| VoiceReader.ScreenReader.PauseReading | screenreadervoice.js:52-54 | exactly one `pause` is sent; no state variable and no outstanding utterance changes |
| VoiceReader.ScreenReader.ResumeReading | screenreadervoice.js:56-58 | exactly one `resume` is sent; no state variable and no outstanding utterance changes |
| VoiceReader.ScreenReader.StopReading | screenreadervoice.js:60-63 | exactly one `cancel` is sent and the flag is cleared from any state; from a non-speaking state no state variable changes, so a second stop changes no state variable and sends one more `cancel` |
| VoiceReader.ScreenReader.Unmount | screenreadervoice.js:30-32 | teardown sends one `cancel` whatever the state and changes nothing else |
| VoiceReader.ScreenReader.OnStart | screenreadervoice.js:45 | the start of any utterance sets the flag and changes nothing else |
| VoiceReader.ScreenReader.OnEnd | screenreadervoice.js:46 | the end of any utterance, current or superseded, clears the flag and changes nothing else |
| VoiceReader.ScreenReader.OnError | screenreadervoice.js:47 | an engine error changes no state, the flag included |
| VoiceReader.OneLiveRequest | screenreadervoice.js:37-49 | a component in a valid state has at most one utterance outstanding at the engine |
| VoiceReader.HelloWorldScenario | screenreadervoice.js:35-50 | "Hello world" at rate 1 with no voice sends one cancel and one speak; the flag is false until the start notification and false again after the end notification |
| VoiceReader.SupersedeScenario | screenreadervoice.js:35-50 | starting "A" then "B" sends cancel, speak A, cancel, speak B, and leaves only "B" outstanding |
| VoiceReader.StaleEndScenario | screenreadervoice.js:45-46 | with "A" and "B" both started through the Read button before any notification, and "B" started, a late end notification of "A" clears the flag while "B" is outstanding |
| VoiceReader.PauseResumeScenario | screenreadervoice.js:52-58 | pause then resume of a started utterance sends no new speak and keeps the flag set |
| VoiceReader.StopTwiceScenario | screenreadervoice.js:60-63 | stopping twice leaves the same state variables as stopping once, with the flag cleared |
| VoiceReader.RefreshResetsChoiceScenario | screenreadervoice.js:22-26 | after picking the second voice, a refresh with the same list selects the first voice again |
| BasicReader.ScreenReader.constructor | screenreader.js:5-15 | on mount: empty text, rate 1, not speaking, no commands sent |
| BasicReader.ScreenReader.SetText | screenreader.js:47 | only the text changes |
| BasicReader.ScreenReader.SetRate | screenreader.js:63 | only the rate changes, to exactly the given value |
| BasicReader.ScreenReader.StartReading | screenreader.js:17-25 | blank text sends nothing and changes nothing; otherwise exactly `cancel` then one `speak` of the current text and rate with no voice, which is then the only outstanding utterance, and the flag is set at once |
| BasicReader.ScreenReader.ClickRead | screenreader.js:50 | the Read button is only enabled while the flag is clear, and it then behaves as `startReading` |
| BasicReader.ScreenReader.PauseReading | screenreader.js:27-29 | exactly one `pause` is sent; no state variable and no outstanding utterance changes |
| BasicReader.ScreenReader.ResumeReading | screenreader.js:31-33 | exactly one `resume` is sent; no state variable and no outstanding utterance changes |
| BasicReader.ScreenReader.StopReading | screenreader.js:35-38 | exactly one `cancel` is sent and the flag is cleared from any state; from a non-speaking state no state variable changes |
| BasicReader.ScreenReader.Unmount | screenreader.js:11-15 | teardown sends one `cancel` and changes nothing else |
| BasicReader.ScreenReader.OnEnd | screenreader.js:22 | the end of any utterance clears the flag and changes nothing else |
| BasicReader.OneLiveRequest | screenreader.js:19-23 | a component in a valid state has at most one utterance outstanding at the engine |
| BasicReader.OptimisticFlagScenario | screenreader.js:17-25 | after a non-blank start the flag is already true, before any engine notification |
| BasicReader.BlankTextScenario | screenreader.js:18 | with blank text the Read button sends nothing and the flag stays clear |
| BasicReader.StaleEndScenario | screenreader.js:22 | after stopping "A" and starting "B", A's late end notification clears the flag while "B" is outstanding |

## Left out

- Rendering: the JSX markup, the Tailwind classes, the `Button` component and the option list are presentation only.
- The `window.speechSynthesis` engine: its audio output, internal state machine and queue draining on natural completion are not modelled. It appears only as the command log and the notification methods.
- React hook mechanics: `useState` batching, asynchronous re-rendering, effect scheduling and stale closures. Setters are immediate field assignments.
- The render-time `new SpeechSynthesisUtterance(text)` at the top of each component: it is overwritten before any use.
- Floating point: `parseFloat` and the slider's 0.5 to 2 range with step 0.1. The rate is a `real` passed through unchanged.
- `console.error` in `onerror`: logging is I/O, so `OnError` is a state no-op.
- The timing of `onvoiceschanged`: `LoadVoices` takes the engine's voice list as a parameter, and the listener registration is not modelled.
- BasicReader start and error notifications: this component registers no `onstart` or `onerror` handler, so such notifications cannot reach it and the model has no method for them.
- The engine is one process-wide instance shared by all components. Each model instance logs only its own commands.
