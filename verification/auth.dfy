/** The bearer-token gate in front of the upload route. */
module Auth {
  import opened Wrappers
  import opened Http

  /** The one credential the server accepts. */
  const ExpectedAuthorization: string := "Bearer YOUR_SECRET_TOKEN"

  /** `res.status(401).json({ error: 'Unauthorized' })` */
  function UnauthorizedReply(): (reply: Reply)
    ensures reply.status == 401 && reply.body.ErrorBody? && reply.body.error == "Unauthorized"
  {
    Reply(401, ErrorBody("Unauthorized", None))
  }

  /** Either `next()` is called or a reply is sent and the chain stops. */
  datatype GateResult = Next | Respond(reply: Reply)

  /**
   * `authMiddleware`: an absent or empty header (`!token`) and any header
   * that is not exactly the expected credential are answered with 401.
   */
  function AuthMiddleware(authorization: Option<string>): (g: GateResult)
    ensures g.Next? <==> authorization == Some("Bearer YOUR_SECRET_TOKEN")
    ensures g.Respond? ==> g.reply == Reply(401, ErrorBody("Unauthorized", None))
  {
    match authorization
    case None => Respond(UnauthorizedReply())
    case Some(token) =>
      if token == "" || token != ExpectedAuthorization then Respond(UnauthorizedReply()) else Next
  }
}
