/** src/middlewares/error_handler.ts: the last middleware turns an error
    into a JSON reply.  The status is the error's own when it has a non-zero
    one and 500 otherwise; the stack is shown only when NODE_ENV is
    "development" and the error has one. */
module ErrorHandler {
  import opened Common
  import opened Http

  /** An error reaching the handler. */
  datatype HttpError = HttpError(status: Option<int>, message: string, stack: Option<string>)

  const DefaultMessage := "Internal Server Error"

  /** `err.status || 500`. */
  function Status(e: HttpError): int {
    if e.status.Some? && e.status.value != 0 then e.status.value else 500
  }

  /** `{ message: err.message || 'Internal Server Error', ...(dev && { stack }) }`;
      a stack that is undefined is left out by `res.json`. */
  function ErrorObject(e: HttpError, nodeEnv: Option<string>): Json {
    var message := ("message", JStr(if e.message == [] then DefaultMessage else e.message));
    if nodeEnv == Some("development") && e.stack.Some? then JObj([message, ("stack", JStr(e.stack.value))])
    else JObj([message])
  }

  function Reply(e: HttpError, nodeEnv: Option<string>): Write {
    Write(Status(e), JObj([("error", ErrorObject(e, nodeEnv))]))
  }

  method Handle(res: Response, e: HttpError, nodeEnv: Option<string>)
    modifies res
    ensures res.writes == old(res.writes) + [Reply(e, nodeEnv)]
  {
    var reply := Reply(e, nodeEnv);
    res.Send(reply.status, reply.body);
  }

  // ---- lemmas ----

  /** The status-code table of the reply: the error's own non-zero status,
      otherwise 500, never 0, and the same in every environment. */
  lemma StatusChoice(e: HttpError, nodeEnv: Option<string>, otherEnv: Option<string>)
    ensures var status := Reply(e, nodeEnv).status;
      status != 0
      && (e.status.Some? && e.status.value != 0 ==> status == e.status.value)
      && (e.status.None? || e.status.value == 0 ==> status == 500)
      && status == Reply(e, otherEnv).status
  {
  }

  /** The reply body is `{ error: { message, [stack] } }`: the message is
      never empty, and a stack member appears exactly in development mode
      for an error that has a stack. */
  lemma ReplyShape(e: HttpError, nodeEnv: Option<string>)
    ensures var body := Reply(e, nodeEnv).body;
      body.JObj? && |body.members| == 1 && body.members[0].0 == "error"
      && var inner := body.members[0].1;
         inner.JObj? && |inner.members| >= 1 && inner.members[0].0 == "message"
         && inner.members[0].1.JStr? && inner.members[0].1.s != []
         && (e.message != [] ==> inner.members[0].1.s == e.message)
         && ((exists i :: 0 <= i < |inner.members| && inner.members[i].0 == "stack")
               <==> nodeEnv == Some("development") && e.stack.Some?)
  {
    var inner := ErrorObject(e, nodeEnv);
    if nodeEnv == Some("development") && e.stack.Some? {
      assert inner.members[1].0 == "stack";
    } else {
      assert |inner.members| == 1 && inner.members[0].0 == "message";
    }
  }
}
