/**
 * The browser speech engine (`window.speechSynthesis`) as the controller sees it:
 * the voices it offers, the utterances it is given, and the log of commands the
 * controller has issued to it. The engine's own audio output and scheduling are
 * not modelled; its notifications are calls into the controller.
 */
module Engine {
  import opened Wrappers

  /** A `SpeechSynthesisVoice`: the picker identifies it by `name`. */
  datatype Voice = Voice(name: string, lang: string)

  /** A `SpeechSynthesisUtterance` as submitted: text, rate and an optional voice (none = engine default). */
  datatype Utterance = Utterance(text: string, rate: real, voice: Option<Voice>)

  /** One call on `window.speechSynthesis`. */
  datatype Cmd = Cancel | Speak(u: Utterance) | Pause | Resume

  /** The controller's command protocol: every `speak` is issued right after a `cancel`. */
  predicate CancelBeforeSpeak(log: seq<Cmd>)
  {
    forall i :: 0 <= i < |log| && log[i].Speak? ==> 0 < i && log[i - 1] == Cancel
  }

  /**
   * The utterances submitted since the last `cancel`, in submission order: what the
   * engine's queue can still hold (`speak` enqueues, `cancel` empties the queue,
   * `pause` and `resume` leave it alone).
   */
  function Outstanding(log: seq<Cmd>): (r: seq<Utterance>)
    ensures forall u :: u in r ==> Speak(u) in log
    ensures |r| <= |log|
  {
    if log == [] then []
    else
      var prev := Outstanding(log[..|log| - 1]);
      match log[|log| - 1]
      case Cancel => []
      case Speak(u) => prev + [u]
      case Pause => prev
      case Resume => prev
  }

  /** A `cancel` followed by one `speak` keeps the protocol. */
  lemma CancelSpeakKeepsProtocol(log: seq<Cmd>, u: Utterance)
    requires CancelBeforeSpeak(log)
    ensures CancelBeforeSpeak(log + [Cancel, Speak(u)])
  {
  }

  /** A command other than `speak` keeps the protocol. */
  lemma ControlKeepsProtocol(log: seq<Cmd>, c: Cmd)
    requires CancelBeforeSpeak(log) && !c.Speak?
    ensures CancelBeforeSpeak(log + [c])
  {
  }

  /** Issuing `cancel` then `speak(u)` leaves exactly `u` outstanding, whatever was queued before. */
  lemma OutstandingAfterRestart(log: seq<Cmd>, u: Utterance)
    ensures Outstanding(log + [Cancel, Speak(u)]) == [u]
  {
  }

  /** A `pause` or `resume` leaves the outstanding utterances as they were. */
  lemma OutstandingAfterControl(log: seq<Cmd>, c: Cmd)
    requires c == Pause || c == Resume
    ensures Outstanding(log + [c]) == Outstanding(log)
  {
  }

  /** A `cancel` leaves nothing outstanding. */
  lemma OutstandingAfterCancel(log: seq<Cmd>)
    ensures Outstanding(log + [Cancel]) == []
  {
  }

  /** Under the protocol at most one utterance is ever outstanding: no two `speak` calls overlap. */
  lemma {:induction false} AtMostOneOutstanding(log: seq<Cmd>)
    requires CancelBeforeSpeak(log)
    ensures |Outstanding(log)| <= 1
  {
    if log != [] {
      var n := |log|;
      var prefix := log[..n - 1];
      assert CancelBeforeSpeak(prefix) by {
        forall i | 0 <= i < |prefix| && prefix[i].Speak?
          ensures 0 < i && prefix[i - 1] == Cancel
        {
          assert prefix[i] == log[i];
        }
      }
      AtMostOneOutstanding(prefix);
      if log[n - 1].Speak? {
        assert prefix[..n - 2] + [Cancel] == prefix;
        OutstandingAfterCancel(prefix[..n - 2]);
      }
    }
  }
}
