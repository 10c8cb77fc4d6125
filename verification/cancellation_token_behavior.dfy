/** `CancellationTokenBehavior`: the pipeline step that turns a cancelled request into
    `System.Timeout`. Cancellation is checked only after the handler has run, so the handler's
    state changes stay in place. */
module CancellationTokenBehavior {
  import opened Outcomes
  import opened DomainErrors
  import opened AppState

  /** `Handle(request, token, next)` applied to what `next()` did. `cancelled` is the token's
      state when `ThrowIfCancellationRequested` runs. A returned response survives only an
      uncancelled token; a cancellation exception from the handler becomes `System.Timeout`;
      any other exception goes through uncaught. */
  function Handle<T>(next: Step<Completion<ErrorOr<T>>>, cancelled: bool): (r: Step<Completion<ErrorOr<T>>>)
    ensures r.state == next.state
    ensures next.response.Returned? && !cancelled ==> r.response == next.response
    ensures next.response.Returned? && cancelled ==> r.response == Returned(Err(SystemTimeout))
    ensures next.response.Threw? && IsOperationCanceled(next.response.exception) ==> r.response == Returned(Err(SystemTimeout))
    ensures next.response.Threw? && !IsOperationCanceled(next.response.exception) ==> r.response == next.response
  {
    match next.response
    case Returned(response) =>
      if cancelled then Step(Returned(Err(SystemTimeout)), next.state)
      else next
    case Threw(e) =>
      if IsOperationCanceled(e) then Step(Returned(Err(SystemTimeout)), next.state)
      else next
  }

  /** A handler call that cannot throw, as seen by the pipeline. */
  function Returning<T>(s: Step<T>): (r: Step<Completion<T>>)
    ensures r.response.Returned? && r.response.value == s.response && r.state == s.state
  {
    Step(Returned(s.response), s.state)
  }

  /** No cancellation exception ever leaves the behaviour, and running it twice with the same
      token changes nothing more than running it once. */
  lemma HandleAbsorbsCancellation<T>(next: Step<Completion<ErrorOr<T>>>, cancelled: bool)
    ensures Handle(next, cancelled).response.Threw? ==> !IsOperationCanceled(Handle(next, cancelled).response.exception)
    ensures Handle(Handle(next, cancelled), cancelled) == Handle(next, cancelled)
  {
  }

  /** A behaviour whose token is never cancelled and whose handler raises no cancellation is
      transparent. */
  lemma UncancelledIsTransparent<T>(next: Step<Completion<ErrorOr<T>>>)
    requires next.response.Threw? ==> !IsOperationCanceled(next.response.exception)
    ensures Handle(next, false) == next
  {
  }
}
