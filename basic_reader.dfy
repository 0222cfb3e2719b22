/**
 * The older `ScreenReader` component (screenreader.js): text, rate and a speaking
 * flag, no voice choice. It sets the flag as soon as it has issued `speak`; the
 * utterance's end notification and `stopReading` clear it. React's setters are modelled as
 * immediate field assignments; `log` records every engine call the component has made.
 */
module BasicReader {
  import opened Wrappers
  import opened JsString
  import opened Engine

  /** The component's state variables, without the engine log. */
  datatype Controls = Controls(text: string, rate: real, isSpeaking: bool)

  class ScreenReader {
    var text: string
    var rate: real
    var isSpeaking: bool
    /** Every call made on `window.speechSynthesis`, oldest first. */
    var log: seq<Cmd>

    /** Every `speak` follows a `cancel`. */
    ghost predicate Valid()
      reads this
    {
      CancelBeforeSpeak(log)
    }

    function State(): (c: Controls)
      reads this
    {
      Controls(text, rate, isSpeaking)
    }

    /** The utterance `startReading` builds: current text and rate, the engine's default voice. */
    function Request(): (u: Utterance)
      reads this
    {
      Utterance(text, rate, None)
    }

    /** Mounting: empty text, rate 1, not speaking, nothing sent to the engine. */
    constructor ()
      ensures Valid()
      ensures State() == Controls("", 1.0, false) && log == []
    {
      text, rate, isSpeaking := "", 1.0, false;
      log := [];
    }

    /** The textarea's `onChange`. */
    method SetText(t: string)
      requires Valid()
      modifies this
      ensures Valid()
      ensures State() == old(State()).(text := t) && log == old(log)
    {
      text := t;
    }

    /** The rate slider's `onChange`; the value is stored as given, without clamping. */
    method SetRate(r: real)
      requires Valid()
      modifies this
      ensures Valid()
      ensures State() == old(State()).(rate := r) && log == old(log)
    {
      rate := r;
    }

    /**
     * `startReading`: blank text issues nothing and changes nothing; otherwise `cancel`, one
     * `speak` of the current text and rate with no voice, and the flag is set at once.
     */
    method StartReading()
      requires Valid()
      modifies this
      ensures Valid()
      ensures IsBlank(text) ==> State() == old(State()) && log == old(log)
      ensures !IsBlank(text) ==> State() == old(State()).(isSpeaking := true)
      ensures !IsBlank(text) ==> log == old(log) + [Cancel, Speak(Utterance(text, rate, None))]
      ensures !IsBlank(text) ==> Outstanding(log) == [Request()]
    {
      TrimEmptyIffBlank(text);
      if Trim(text) == "" {
        return;
      }
      var u := Utterance(text, rate, None);
      log := log + [Cancel];
      log := log + [Speak(u)];
      assert log == old(log) + [Cancel, Speak(u)];
      CancelSpeakKeepsProtocol(old(log), u);
      OutstandingAfterRestart(old(log), u);
      isSpeaking := true;
    }

    /** The Read button: it is disabled while the flag says speaking, then calls `startReading`. */
    method ClickRead()
      requires Valid() && !isSpeaking
      modifies this
      ensures Valid()
      ensures IsBlank(text) ==> State() == old(State()) && log == old(log)
      ensures !IsBlank(text) ==> State() == old(State()).(isSpeaking := true)
      ensures !IsBlank(text) ==> log == old(log) + [Cancel, Speak(Request())]
      ensures !IsBlank(text) ==> Outstanding(log) == [Request()]
    {
      StartReading();
    }

    /** `pauseReading`: forwards `pause`; no state variable changes. */
    method PauseReading()
      requires Valid()
      modifies this
      ensures Valid()
      ensures State() == old(State()) && log == old(log) + [Pause]
      ensures Outstanding(log) == Outstanding(old(log))
    {
      ControlKeepsProtocol(log, Pause);
      OutstandingAfterControl(log, Pause);
      log := log + [Pause];
    }

    /** `resumeReading`: forwards `resume`; no state variable changes. */
    method ResumeReading()
      requires Valid()
      modifies this
      ensures Valid()
      ensures State() == old(State()) && log == old(log) + [Resume]
      ensures Outstanding(log) == Outstanding(old(log))
    {
      ControlKeepsProtocol(log, Resume);
      OutstandingAfterControl(log, Resume);
      log := log + [Resume];
    }

    /** `stopReading`: `cancel`, then the flag is cleared; from a non-speaking state nothing else changes. */
    method StopReading()
      requires Valid()
      modifies this
      ensures Valid()
      ensures State() == old(State()).(isSpeaking := false) && log == old(log) + [Cancel]
      ensures !old(isSpeaking) ==> State() == old(State())
      ensures Outstanding(log) == []
    {
      ControlKeepsProtocol(log, Cancel);
      log := log + [Cancel];
      isSpeaking := false;
    }

    /** The effect's cleanup on unmount: `cancel`, whatever the state. */
    method Unmount()
      requires Valid()
      modifies this
      ensures Valid()
      ensures State() == old(State()) && log == old(log) + [Cancel]
      ensures Outstanding(log) == []
    {
      ControlKeepsProtocol(log, Cancel);
      log := log + [Cancel];
    }

    /**
     * `onend` of utterance `u`, the only notification this component listens to. It does not
     * look at which utterance ended, so the end of a superseded one clears the flag too.
     */
    method OnEnd(u: Utterance)
      requires Valid()
      modifies this
      ensures Valid()
      ensures State() == old(State()).(isSpeaking := false) && log == old(log)
    {
      isSpeaking := false;
    }
  }

  /** A component in a valid state never has more than one utterance outstanding at the engine. */
  lemma OneLiveRequest(reader: ScreenReader)
    requires reader.Valid()
    ensures |Outstanding(reader.log)| <= 1
  {
    AtMostOneOutstanding(reader.log);
  }

  /** The flag is true straight after a non-blank start, before any engine notification. */
  method OptimisticFlagScenario() returns (sent: seq<Cmd>, speaking: bool)
    ensures sent == [Cancel, Speak(Utterance("Hello world", 1.0, None))]
    ensures speaking
  {
    var reader := new ScreenReader();
    reader.SetText("Hello world");
    assert !IsJsWhitespace(reader.text[0]);
    reader.ClickRead();
    sent, speaking := reader.log, reader.isSpeaking;
  }

  /** Blank text: the Read button sends nothing and the flag stays clear. */
  method BlankTextScenario(t: string) returns (sent: seq<Cmd>, speaking: bool)
    requires IsBlank(t)
    ensures sent == [] && !speaking
  {
    var reader := new ScreenReader();
    reader.SetText(t);
    reader.ClickRead();
    sent, speaking := reader.log, reader.isSpeaking;
  }

  /**
   * "A" is stopped and "B" started; the end notification of the cancelled "A" then arrives late
   * and clears the flag although "B" is the outstanding utterance.
   */
  method StaleEndScenario() returns (speaking: bool, live: seq<Utterance>)
    ensures !speaking
    ensures live == [Utterance("B", 1.0, None)]
  {
    var reader := new ScreenReader();
    reader.SetText("A");
    assert !IsJsWhitespace(reader.text[0]);
    reader.ClickRead();
    var a := reader.Request();
    reader.StopReading();
    reader.SetText("B");
    assert !IsJsWhitespace(reader.text[0]);
    reader.ClickRead();
    reader.OnEnd(a);
    speaking, live := reader.isSpeaking, Outstanding(reader.log);
  }
}
