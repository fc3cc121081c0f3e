/** The error-handling middleware: every thrown value becomes a JSON reply. */
module ErrorHandler {
  import opened Wrappers
  import opened Http

  /**
   * The MulterError test comes first, so a MulterError reports its `code`,
   * not the name "MulterError" it would get from the Error branch.
   */
  function HandleError(err: Thrown): (reply: Reply)
    ensures reply.status == (if InstanceOfError(err) then 400 else 500)
    ensures InstanceOfMulterError(err) ==> reply.body == ErrorBody(err.code, Some(err.message))
    ensures InstanceOfError(err) && !InstanceOfMulterError(err) ==> reply.body == ErrorBody(ErrorName(err), Some(err.message))
    ensures !InstanceOfError(err) ==> reply.body == ErrorBody("UnknownError", None)
  {
    if InstanceOfMulterError(err) then Reply(400, ErrorBody(err.code, Some(err.message)))
    else if InstanceOfError(err) then Reply(400, ErrorBody(ErrorName(err), Some(err.message)))
    else Reply(500, ErrorBody("UnknownError", None))
  }

  /**
   * Every reply is an error body; it carries a message exactly when the
   * status is 400, that is, exactly when an Error was thrown.
   */
  lemma ErrorRepliesAreWellFormed(err: Thrown)
    ensures var reply := HandleError(err);
      && reply.body.ErrorBody?
      && (reply.status == 400 || reply.status == 500)
      && (reply.body.errorMessage.Some? <==> reply.status == 400)
      && (reply.body.errorMessage.Some? <==> InstanceOfError(err))
  {
  }
}
