/** Optional values and the two ways a .NET call can end: it returns, or it throws. */
module Outcomes {

  /** A nullable reference: `None` stands for C#'s `null`. */
  datatype Option<+T> = None | Some(value: T)

  /** The exceptions the modelled code can raise or observe. */
  datatype Exception =
    | OperationCanceled    // System.OperationCanceledException
    | TaskCanceled         // System.Threading.Tasks.TaskCanceledException, a subclass of the above
    | ArgumentOutOfRange   // a string range `s[i..]` with i beyond the end
    | Format               // Convert.FromBase64String on text that is not base64
    | NullReference        // a member access through a null reference

  /** `catch (Exception e) when (e is OperationCanceledException)` matches these two. */
  predicate IsOperationCanceled(e: Exception) {
    e.OperationCanceled? || e.TaskCanceled?
  }

  /** How a call ended: with a returned value or with an exception in flight. */
  datatype Completion<+T> = Returned(value: T) | Threw(exception: Exception)
}
