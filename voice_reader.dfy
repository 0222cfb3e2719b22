/**
 * The voice-aware `ScreenReader` component (screenreadervoice.js): a controller
 * whose state is the text, the rate, the speaking flag, the voice snapshot and the
 * selected voice, and whose handlers issue commands to the speech engine. React's
 * setters are modelled as immediate field assignments; `log` records every engine
 * call the component has made.
 */
module VoiceReader {
  import opened Wrappers
  import opened JsString
  import opened Engine

  /** The component's state variables, without the engine log. */
  datatype Controls = Controls(
    text: string, rate: real, isSpeaking: bool, voices: seq<Voice>, selectedVoice: Option<Voice>)

  /** `voices.find(v => v.name === name)`: the first voice with that name, or none (`undefined`). */
  function FindByName(voices: seq<Voice>, name: string): (r: Option<Voice>)
    ensures r.None? <==> forall v :: v in voices ==> v.name != name
    ensures r.Some? ==> exists k :: 0 <= k < |voices| && voices[k] == r.value && r.value.name == name
                                    && forall j :: 0 <= j < k ==> voices[j].name != name
  {
    if voices == [] then None
    else if voices[0].name == name then Some(voices[0])
    else
      var r := FindByName(voices[1..], name);
      assert r.Some? ==> exists k :: 0 < k < |voices| && voices[k] == r.value
                                      && forall j :: 0 <= j < k ==> voices[j].name != name by {
        if r.Some? {
          var k :| 0 <= k < |voices| - 1 && voices[1..][k] == r.value
                   && forall j :: 0 <= j < k ==> voices[1..][j].name != name;
          assert forall j :: 1 <= j < k + 1 ==> voices[j].name != name by {
            forall j | 1 <= j < k + 1 ensures voices[j].name != name {
              assert voices[j] == voices[1..][j - 1];
            }
          }
        }
      }
      r
  }

  /** `availableVoices[0] || null`: voice objects are truthy, so this is the first voice if there is one. */
  function FirstVoice(voices: seq<Voice>): (r: Option<Voice>)
    ensures r.Some? <==> voices != []
    ensures r.Some? ==> r.value == voices[0]
  {
    if voices == [] then None else Some(voices[0])
  }

  class ScreenReader {
    var text: string
    var rate: real
    var isSpeaking: bool
    var voices: seq<Voice>
    var selectedVoice: Option<Voice>
    /** Every call made on `window.speechSynthesis`, oldest first. */
    var log: seq<Cmd>

    /** The selected voice, if any, is in the snapshot, and every `speak` follows a `cancel`. */
    ghost predicate Valid()
      reads this
    {
      && (selectedVoice.Some? ==> selectedVoice.value in voices)
      && CancelBeforeSpeak(log)
    }

    function State(): (c: Controls)
      reads this
    {
      Controls(text, rate, isSpeaking, voices, selectedVoice)
    }

    /** The utterance `startReading` builds from the current text, rate and selection. */
    function Request(): (u: Utterance)
      reads this
    {
      Utterance(text, rate, selectedVoice)
    }

    /** Mounting: initial state, then the effect's first `loadVoices` with the engine's current list. */
    constructor (available: seq<Voice>)
      ensures Valid()
      ensures State() == Controls("", 1.0, false, available, FirstVoice(available))
      ensures log == []
    {
      text, rate, isSpeaking := "", 1.0, false;
      voices, selectedVoice := [], None;
      log := [];
      new;
      LoadVoices(available);
    }

    /**
     * `loadVoices`, run on mount and on every `onvoiceschanged`: the snapshot is replaced and the
     * selection is reset to its first voice, even when the previous choice is still offered.
     */
    method LoadVoices(available: seq<Voice>)
      requires Valid()
      modifies this
      ensures Valid()
      ensures voices == available && selectedVoice == FirstVoice(available)
      ensures text == old(text) && rate == old(rate) && isSpeaking == old(isSpeaking)
      ensures log == old(log)
    {
      voices := available;
      selectedVoice := FirstVoice(available);
    }

    /** The picker's `onChange`: selects the voice with the chosen name, or nothing if none has it. */
    method PickVoice(name: string)
      requires Valid()
      modifies this
      ensures Valid()
      ensures selectedVoice == FindByName(voices, name)
      ensures State() == old(State()).(selectedVoice := selectedVoice) && log == old(log)
    {
      selectedVoice := FindByName(voices, name);
    }

    /** The textarea's `onChange`. */
    method SetText(t: string)
      requires Valid()
      modifies this
      ensures Valid()
      ensures State() == old(State()).(text := t) && log == old(log)
    {
      text := t;
    }

    /** The rate slider's `onChange`; the value is stored as given, without clamping. */
    method SetRate(r: real)
      requires Valid()
      modifies this
      ensures Valid()
      ensures State() == old(State()).(rate := r) && log == old(log)
    {
      rate := r;
    }

    /**
     * `startReading`: blank text issues nothing; otherwise `cancel` then one `speak` of the
     * current text, rate and selected voice. No state variable changes here: the speaking flag
     * waits for the engine's start notification.
     */
    method StartReading()
      requires Valid()
      modifies this
      ensures Valid()
      ensures State() == old(State())
      ensures IsBlank(text) ==> log == old(log)
      ensures !IsBlank(text) ==> log == old(log) + [Cancel, Speak(Utterance(text, rate, selectedVoice))]
      ensures !IsBlank(text) ==> Outstanding(log) == [Request()]
    {
      TrimEmptyIffBlank(text);
      if Trim(text) == "" {
        return;
      }
      var u := Utterance(text, rate, selectedVoice);
      log := log + [Cancel];
      log := log + [Speak(u)];
      assert log == old(log) + [Cancel, Speak(u)];
      CancelSpeakKeepsProtocol(old(log), u);
      OutstandingAfterRestart(old(log), u);
    }

    /** The Read button: it is disabled while the flag says speaking, then calls `startReading`. */
    method ClickRead()
      requires Valid() && !isSpeaking
      modifies this
      ensures Valid()
      ensures State() == old(State())
      ensures IsBlank(text) ==> log == old(log)
      ensures !IsBlank(text) ==> log == old(log) + [Cancel, Speak(Request())]
      ensures !IsBlank(text) ==> Outstanding(log) == [Request()]
    {
      StartReading();
    }

    /** `pauseReading`: forwards `pause`; no state variable changes. */
    method PauseReading()
      requires Valid()
      modifies this
      ensures Valid()
      ensures State() == old(State()) && log == old(log) + [Pause]
      ensures Outstanding(log) == Outstanding(old(log))
    {
      ControlKeepsProtocol(log, Pause);
      OutstandingAfterControl(log, Pause);
      log := log + [Pause];
    }

    /** `resumeReading`: forwards `resume`; no state variable changes. */
    method ResumeReading()
      requires Valid()
      modifies this
      ensures Valid()
      ensures State() == old(State()) && log == old(log) + [Resume]
      ensures Outstanding(log) == Outstanding(old(log))
    {
      ControlKeepsProtocol(log, Resume);
      OutstandingAfterControl(log, Resume);
      log := log + [Resume];
    }

    /** `stopReading`: `cancel`, then the flag is cleared; from a non-speaking state nothing else changes. */
    method StopReading()
      requires Valid()
      modifies this
      ensures Valid()
      ensures State() == old(State()).(isSpeaking := false) && log == old(log) + [Cancel]
      ensures !old(isSpeaking) ==> State() == old(State())
      ensures Outstanding(log) == []
    {
      ControlKeepsProtocol(log, Cancel);
      log := log + [Cancel];
      isSpeaking := false;
    }

    /** The effect's cleanup on unmount: `cancel`, whatever the state. */
    method Unmount()
      requires Valid()
      modifies this
      ensures Valid()
      ensures State() == old(State()) && log == old(log) + [Cancel]
      ensures Outstanding(log) == []
    {
      ControlKeepsProtocol(log, Cancel);
      log := log + [Cancel];
    }

    /**
     * `onstart` of utterance `u`. The handler does not look at which utterance started:
     * any registered utterance's notification sets the flag.
     */
    method OnStart(u: Utterance)
      requires Valid()
      modifies this
      ensures Valid()
      ensures State() == old(State()).(isSpeaking := true) && log == old(log)
    {
      isSpeaking := true;
    }

    /**
     * `onend` of utterance `u`. Callbacks are not tied to the current request, so the end of a
     * superseded utterance clears the flag too.
     */
    method OnEnd(u: Utterance)
      requires Valid()
      modifies this
      ensures Valid()
      ensures State() == old(State()).(isSpeaking := false) && log == old(log)
    {
      isSpeaking := false;
    }

    /** `onerror` of utterance `u`: only logged to the console, so the state is untouched. */
    method OnError(u: Utterance)
      requires Valid()
      modifies this
      ensures Valid()
      ensures State() == old(State()) && log == old(log)
    {
    }
  }

  /** A component in a valid state never has more than one utterance outstanding at the engine. */
  lemma OneLiveRequest(reader: ScreenReader)
    requires reader.Valid()
    ensures |Outstanding(reader.log)| <= 1
  {
    AtMostOneOutstanding(reader.log);
  }

  /**
   * "Hello world" at rate 1 with no voice: one `cancel` and one `speak`; the flag becomes true
   * only on the start notification and false again on the end notification.
   */
  method HelloWorldScenario() returns (sent: seq<Cmd>, afterStart: bool, afterStarted: bool, afterEnded: bool)
    ensures sent == [Cancel, Speak(Utterance("Hello world", 1.0, None))]
    ensures !afterStart && afterStarted && !afterEnded
  {
    var reader := new ScreenReader([]);
    reader.SetText("Hello world");
    assert !IsJsWhitespace(reader.text[0]);
    reader.StartReading();
    sent, afterStart := reader.log, reader.isSpeaking;
    var u := reader.Request();
    reader.OnStart(u);
    afterStarted := reader.isSpeaking;
    reader.OnEnd(u);
    afterEnded := reader.isSpeaking;
  }

  /** Starting "A" and then "B" before any notification: two cancel/speak pairs, only "B" outstanding. */
  method SupersedeScenario() returns (sent: seq<Cmd>, live: seq<Utterance>)
    ensures sent == [Cancel, Speak(Utterance("A", 1.0, None)), Cancel, Speak(Utterance("B", 1.0, None))]
    ensures live == [Utterance("B", 1.0, None)]
  {
    var reader := new ScreenReader([]);
    reader.SetText("A");
    assert !IsJsWhitespace(reader.text[0]);
    reader.StartReading();
    reader.SetText("B");
    assert !IsJsWhitespace(reader.text[0]);
    reader.StartReading();
    sent, live := reader.log, Outstanding(reader.log);
  }

  /**
   * "A" and then "B" are started through the Read button before any notification (the flag is
   * still clear); "B" starts, and then the late end notification of the superseded "A" arrives:
   * the flag is cleared although "B" is the outstanding utterance.
   */
  method StaleEndScenario() returns (speaking: bool, live: seq<Utterance>)
    ensures !speaking
    ensures live == [Utterance("B", 1.0, None)]
  {
    var reader := new ScreenReader([]);
    reader.SetText("A");
    assert !IsJsWhitespace(reader.text[0]);
    reader.ClickRead();
    var a := reader.Request();
    reader.SetText("B");
    assert !IsJsWhitespace(reader.text[0]);
    reader.ClickRead();
    var b := reader.Request();
    reader.OnStart(b);
    reader.OnEnd(a);
    speaking, live := reader.isSpeaking, Outstanding(reader.log);
  }

  /** Pausing and resuming a started utterance issues no new `speak` and leaves the flag set. */
  method PauseResumeScenario() returns (sent: seq<Cmd>, speaking: bool)
    ensures sent == [Cancel, Speak(Utterance("Hi", 1.0, None)), Pause, Resume]
    ensures speaking
  {
    var reader := new ScreenReader([]);
    reader.SetText("Hi");
    assert !IsJsWhitespace(reader.text[0]);
    reader.StartReading();
    reader.OnStart(reader.Request());
    reader.PauseReading();
    reader.ResumeReading();
    sent, speaking := reader.log, reader.isSpeaking;
  }

  /** Stopping twice leaves the same state variables as stopping once, with the flag cleared. */
  method StopTwiceScenario(t: string, r: real, available: seq<Voice>, started: bool)
    returns (once: Controls, twice: Controls)
    ensures once == twice && !once.isSpeaking
    ensures once == Controls(t, r, false, available, FirstVoice(available))
  {
    var reader := new ScreenReader(available);
    reader.SetText(t);
    reader.SetRate(r);
    if started {
      reader.StartReading();
      reader.OnStart(reader.Request());
    }
    reader.StopReading();
    once := reader.State();
    reader.StopReading();
    twice := reader.State();
  }

  /**
   * A voice list refresh resets the selection to the first voice, even when the voice picked
   * before is still in the new list.
   */
  method RefreshResetsChoiceScenario() returns (picked: Option<Voice>, afterRefresh: Option<Voice>)
    ensures picked == Some(Voice("Bob", "en-GB"))
    ensures afterRefresh == Some(Voice("Alice", "en-US"))
  {
    var alice, bob := Voice("Alice", "en-US"), Voice("Bob", "en-GB");
    var reader := new ScreenReader([alice, bob]);
    reader.PickVoice("Bob");
    assert reader.voices[1] == bob && reader.voices[0].name != "Bob";
    picked := reader.selectedVoice;
    reader.LoadVoices([alice, bob]);
    afterRefresh := reader.selectedVoice;
  }
}
