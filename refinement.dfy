/** The optional refinement step of `app2.py`: `refine_with_llm` asks a chat model to
  * rewrite the bullet list, and the caller unpacks its answer into the refined text
  * and an error, keeps the refined text only when there is no error, and warns when
  * there is one. The chat model's reply and the key lookups are parameters. */
module Refinement {
  import opened Outcomes
  import opened PyText
  import Formatter

  const FailurePrefix: string := "LLM refine failed: "
  const WarningPrefix: string := "LLM refine fallback: "

  /** What `refine_with_llm` returns: a pair `(refined, error)` with `error` either
    * `None` or a message, or (on the no-key path as written) the bare bullet list. */
  datatype Returned = Pair(refined: string, error: Option<string>) | Bare(text: string)

  /** The key: the environment variable when it is set and non-empty, otherwise the
    * secrets store, where a missing entry raises and is turned into `None`. */
  function ApiKey(env: Option<string>, secret: Option<string>): (key: Option<string>)
    ensures HasKey(key) <==> HasKey(env) || HasKey(secret)
    ensures HasKey(env) ==> key == env
    ensures !HasKey(env) ==> key == secret
  {
    if env.Some? && env.value != "" then env else secret
  }

  predicate HasKey(key: Option<string>)
  {
    key.Some? && key.value != ""
  }

  /** `refine_with_llm` as written. `reply` is the outcome of the chat call and of
    * reading the content out of its answer; `Failure(e)` is an exception with
    * message `e`. */
  function RefineAsWritten(env: Option<string>, secret: Option<string>,
                           reply: Result<string, string>, bulleted: string): (r: Returned)
    ensures r.Bare? <==> !HasKey(ApiKey(env, secret))
    ensures r.Bare? ==> r.text == bulleted
    ensures r.Pair? ==> (r.error.None? <==> reply.Success?)
    ensures r.Pair? && r.error.Some? ==> r.refined == bulleted && r.error.value == FailurePrefix + reply.error
  {
    if !HasKey(ApiKey(env, secret)) then Bare(bulleted)
    else match reply
      case Success(content) => Pair(Strip(content), None)
      case Failure(e) => Pair(bulleted, Some(FailurePrefix + e))
  }

  /** `refine_with_llm` with the no-key path returning the pair the caller unpacks, as
    * its documentation says: the original list and no error. Stated field by field:
    * the text is the stripped reply only when there is a key and the call succeeds,
    * and there is an error only when there is a key and the call raises. */
  function Refine(env: Option<string>, secret: Option<string>,
                  reply: Result<string, string>, bulleted: string): (r: Returned)
    ensures r.Pair?
    ensures r.error.Some? ==> r.refined == bulleted && HasKey(ApiKey(env, secret)) && reply.Failure?
  {
    var keyed := HasKey(ApiKey(env, secret));
    var refined := if keyed && reply.Success? then Strip(reply.value) else bulleted;
    var error := if keyed && reply.Failure? then Some(FailurePrefix + reply.error) else None;
    Pair(refined, error)
  }

  /** Why unpacking two names from a value raises `ValueError`. */
  datatype UnpackError = TooManyValues | NotEnoughValues(got: nat)

  /** `refined_summary, llm_error = returned`: a pair unpacks as itself; a bare string
    * unpacks character by character, which works only for exactly two characters. */
  function Unpack(returned: Returned): (r: Result<(string, Option<string>), UnpackError>)
    ensures r.Success? <==> returned.Pair? || |returned.text| == 2
    ensures returned.Pair? ==> r == Success((returned.refined, returned.error))
    ensures returned.Bare? && |returned.text| > 2 ==> r == Failure(TooManyValues)
  {
    match returned
      case Pair(refined, error) => Success((refined, error))
      case Bare(text) =>
        if |text| == 2 then Success(([text[0]], Some([text[1]])))
        else if |text| > 2 then Failure(TooManyValues)
        else Failure(NotEnoughValues(|text|))
  }

  /** The summary shown and the warning shown with it, if any. */
  datatype Shown = Shown(final: string, warning: Option<string>)

  /** The refined text when the error is `None`, the unrefined list otherwise: a
    * reported error always falls back to the unrefined list, and a refined text that
    * differs from it is shown exactly when no error is reported. */
  function SelectFinal(refined: string, error: Option<string>, formatted: string): (final: string)
    ensures final == refined || final == formatted
    ensures error.Some? ==> final == formatted
    ensures refined != formatted ==> (final == refined <==> error.None?)
  {
    if error.None? then refined else formatted
  }

  /** The caller from the unpacking to the warning: a `ValueError` from the unpacking
    * escapes to the handler around the whole request, and nothing is shown. */
  function Present(returned: Returned, formatted: string): (r: Result<Shown, UnpackError>)
    ensures r.Failure? <==> Unpack(returned).Failure?
    ensures r.Success? && r.value.warning.Some? ==> r.value.final == formatted
    ensures returned.Pair? && returned.error.None? ==> r == Success(Shown(returned.refined, None))
  {
    match Unpack(returned)
      case Failure(e) => Failure(e)
      case Success(pair) =>
        var (refined, error) := pair;
        var warning := if error.Some? && error.value != "" then Some(WarningPrefix + error.value) else None;
        Success(Shown(SelectFinal(refined, error, formatted), warning))
  }

  /** As written, a run without a key always fails at the unpacking: the bullet list is
    * either empty or at least three characters long, never two. */
  lemma NoKeyAsWrittenFails(env: Option<string>, secret: Option<string>,
                            reply: Result<string, string>, summary: string)
    requires !HasKey(ApiKey(env, secret))
    ensures var formatted := Formatter.FormatPointwise(summary);
      Present(RefineAsWritten(env, secret, reply, formatted), formatted).Failure?
  {
  }

  /** A concrete case: no key anywhere and the one-sentence summary "Done." give the
    * list "• Done.", seven characters, which cannot be unpacked into two names. */
  lemma NoKeyAsWrittenExample(reply: Result<string, string>)
    ensures Present(RefineAsWritten(None, None, reply, "• Done."), "• Done.") == Failure(TooManyValues)
  {
  }

  /** With a key the corrected step is the step as written: only the no-key path changes. */
  lemma RefineWithKeyUnchanged(env: Option<string>, secret: Option<string>,
                               reply: Result<string, string>, bulleted: string)
    requires HasKey(ApiKey(env, secret))
    ensures Refine(env, secret, reply, bulleted) == RefineAsWritten(env, secret, reply, bulleted)
  {
  }

  /** The corrected step never fails at the unpacking, and what is shown is: the
    * unrefined list with no warning when there is no key; the stripped reply with no
    * warning when the call succeeds; the unrefined list with a warning carrying the
    * exception's message when it raises. */
  lemma RefineOutcome(env: Option<string>, secret: Option<string>,
                      reply: Result<string, string>, formatted: string)
    ensures var shown := Present(Refine(env, secret, reply, formatted), formatted);
      && shown.Success?
      && (!HasKey(ApiKey(env, secret)) ==> shown.value == Shown(formatted, None))
      && (HasKey(ApiKey(env, secret)) && reply.Success? ==> shown.value == Shown(Strip(reply.value), None))
      && (HasKey(ApiKey(env, secret)) && reply.Failure? ==>
            shown.value == Shown(formatted, Some(WarningPrefix + (FailurePrefix + reply.error))))
  {
  }

  /** Whatever happens, the corrected step shows either the unrefined list or the
    * stripped reply of a successful call, and a warning only alongside the list. */
  lemma RefineShowsListOrReply(env: Option<string>, secret: Option<string>,
                               reply: Result<string, string>, formatted: string)
    ensures var shown := Present(Refine(env, secret, reply, formatted), formatted).value;
      && (shown.final == formatted || (reply.Success? && shown.final == Strip(reply.value)))
      && (shown.warning.Some? ==> shown.final == formatted && reply.Failure?)
  {
    RefineOutcome(env, secret, reply, formatted);
  }
}
