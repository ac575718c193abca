/** The yes/no prompt of canoe/ui/prompt.py: a one-line input whose accept
 handler forwards the entered text to the callback installed by the last
 `focus`, exactly once.

 The prompt holds its current `on_accept`: the do-nothing function installed
 at construction, a forwarder to a caller's callback, or nothing once an
 accept has consumed it. Callbacks are identities, and whether one raises is
 a parameter.
 */
module YesNoPrompt {
  import opened Wrappers

  type CallbackId = nat

  datatype OnAccept = Dummy | Forward(callback: CallbackId) | Cleared

  datatype Prompt = Prompt(onAccept: OnAccept, focused: bool)

  /** A new prompt: the do-nothing handler, not focused. */
  function Init(): (p: Prompt)
    ensures p.onAccept == Dummy && !p.focused
  {
    Prompt(Dummy, false)
  }

  /** `focus`: install a forwarder to `cb`, replacing whatever handler was
      there, and give the input the focus, which shows it. */
  function Focus(p: Prompt, cb: CallbackId): (r: Prompt)
    ensures r.onAccept.Forward? && r.onAccept.callback == cb
    ensures r.focused
  {
    Prompt(Forward(cb), true)
  }

  /** The outcome of an accept: the prompt after it, the callback call it
      made, and what `_accept` returned or raised. */
  datatype Accepted = Accepted(prompt: Prompt, call: Option<(CallbackId, string)>, outcome: Result<bool>)

  /** `_accept` with the buffer holding `text`: fails its assertion when the
      handler was consumed; otherwise runs the handler once — the forwarder
      passes `text` to its callback — and, unless that call raised
      `raised`, clears the handler and returns false so the toolkit does not
      keep the text. */
  function Accept(p: Prompt, text: string, raised: Option<Fault>): (r: Accepted)
    ensures p.onAccept.Cleared? ==> r == Accepted(p, None, Err(AssertionError))
    ensures p.onAccept.Dummy? ==> r == Accepted(p.(onAccept := Cleared), None, Ok(false))
    ensures p.onAccept.Forward? ==> r.call == Some((p.onAccept.callback, text))
    ensures p.onAccept.Forward? && raised.None? ==>
              r.prompt == p.(onAccept := Cleared) && r.outcome == Ok(false)
    ensures p.onAccept.Forward? && raised.Some? ==>
              r.prompt == p && r.outcome == Err(raised.value)
    ensures r.prompt.focused == p.focused
  {
    match p.onAccept
    case Cleared => Accepted(p, None, Err(AssertionError))
    case Dummy => Accepted(p.(onAccept := Cleared), None, Ok(false))
    case Forward(cb) =>
      match raised
      case Some(f) => Accepted(p, Some((cb, text)), Err(f))
      case None => Accepted(p.(onAccept := Cleared), Some((cb, text)), Ok(false))
  }

  /** One-shot: after an accept that went through, a second accept without a
      new `focus` fails its assertion and calls nothing. */
  lemma AcceptIsOneShot(p: Prompt, t1: string, t2: string, raised: Option<Fault>, raised2: Option<Fault>)
    requires Accept(p, t1, raised).outcome.Ok?
    ensures var second := Accept(Accept(p, t1, raised).prompt, t2, raised2);
            second.call.None? && second.outcome == Err(AssertionError)
  {
  }

  /** An accept before any `focus` runs the do-nothing handler, calls no
      callback, and consumes it. */
  lemma AcceptBeforeFocus(text: string, raised: Option<Fault>)
    ensures Accept(Init(), text, raised) == Accepted(Prompt(Cleared, false), None, Ok(false))
  {
  }

  /** The last `focus` wins: the text goes to the callback given last, and
      only to it. */
  lemma LastFocusWins(p: Prompt, a: CallbackId, b: CallbackId, text: string)
    ensures Accept(Focus(Focus(p, a), b), text, None).call == Some((b, text))
  {
  }

  /** `focus` re-arms a consumed prompt. */
  lemma FocusRearms(p: Prompt, cb: CallbackId, text: string)
    requires p.onAccept.Cleared?
    ensures Accept(Focus(p, cb), text, None) == Accepted(Prompt(Cleared, true), Some((cb, text)), Ok(false))
  {
  }

  /** A callback that raises leaves its forwarder installed, so the next
      accept calls it again. */
  lemma RaisingCallbackStaysArmed(p: Prompt, cb: CallbackId, t1: string, t2: string, f: Fault)
    requires p.onAccept == Forward(cb)
    ensures Accept(Accept(p, t1, Some(f)).prompt, t2, None).call == Some((cb, t2))
  {
  }
}
