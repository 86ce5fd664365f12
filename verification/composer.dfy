/**
  The reply composer, `send_reply`: read the email, generate a reply body,
  render the reply document, write it to the scratch file and send it.
  Every backend call is a parameter that maps the call's input to its outcome.
 */
module Composer {
  import opened Wrappers
  import Text
  import opened Envelope
  import opened MailBackend
  import opened Generation

  /** `himalaya message read <id>`: the email's full text, or a failure. */
  datatype ReadResult = ReadOk(content: string) | ReadFailed

  /** `himalaya template reply <id> <body>`: the reply document, or a failure. */
  datatype TemplateResult = Rendered(document: string) | TemplateFailed

  /** Writing the document to the scratch file `reply.eml` and running
      `himalaya message send` on it: the process's exit status and stderr, or
      an exception the send step raised other than the one for a failed exit.
      `SendRaised` stands for every such exception the broad handler of
      `send_reply` catches: opening or writing the scratch file, the send
      process failing to start, its output failing to decode as text, and
      removing the scratch file after a send that exited 0 or with only the
      archive complaint. In that last case the email has gone out, yet
      `send_reply` returns false, so the id is not recorded and a later cycle
      replies to the same email again. */
  datatype SendStep = Exited(returncode: int, stderr: string) | SendRaised

  /** The external tools, as functions from a call's input to its outcome. */
  datatype Backends = Backends(
    read: Id -> ReadResult,
    complete: string -> Completion,
    template: (Id, string) -> TemplateResult,
    send: string -> SendStep)

  /** What one call of `send_reply` did. Each stage is present only if the
      stages before it succeeded; `ok` is the value returned to the main loop.
      The scratch file is removed only on the path that returns true. */
  datatype ReplyRun = ReplyRun(
    body: Option<string>,        // the generated reply, once the email was read
    document: Option<string>,    // the rendered reply document
    status: Option<SendStatus>,  // the verdict on the finished send process
    ok: bool)

  /** The send step succeeded: the process ran, and it exited with status 0 or
      with only the archive-failure complaint on stderr. */
  ghost predicate SendSucceeded(step: SendStep)
  {
    step.Exited? && (step.returncode == 0 || Text.IsSubstring(ArchiveFailureMarker, step.stderr))
  }

  /** `send_reply(id, subject)`; the subject is only logged. */
  function SendReply(b: Backends, id: Id): (run: ReplyRun)
    ensures run.body.Some? <==> b.read(id).ReadOk?
    ensures run.body.Some? ==> run.body.value != []
    ensures run.body.Some? ==> run.body.value == GenerateReply(b.read(id).content, b.complete)
    ensures run.document.Some? <==> run.body.Some? && b.template(id, run.body.value).Rendered?
    ensures run.document.Some? ==> run.document.value == b.template(id, run.body.value).document
    ensures run.status.Some? <==> run.document.Some? && b.send(run.document.value).Exited?
    ensures run.ok <==> run.document.Some? && SendSucceeded(b.send(run.document.value))
    ensures run.ok ==> run.status.Some? && IsDelivered(run.status.value)
    ensures run.status.Some? && !run.ok ==>
              run.status.value == SendFailed(b.send(run.document.value).returncode,
                                             b.send(run.document.value).stderr)
  {
    match b.read(id)
    case ReadFailed => ReplyRun(None, None, None, false)
    case ReadOk(content) =>
      var body := GenerateReply(content, b.complete);
      match b.template(id, body)
      case TemplateFailed => ReplyRun(Some(body), None, None, false)
      case Rendered(document) =>
        match b.send(document)
        case SendRaised => ReplyRun(Some(body), Some(document), None, false)
        case Exited(returncode, stderr) =>
          var status := ClassifySend(returncode, stderr);
          ReplyRun(Some(body), Some(document), Some(status), IsDelivered(status))
  }

  /** The generation step cannot make the reply fail: when reading works and
      every non-empty body would be rendered and sent successfully, the reply
      succeeds whatever the model does, including failing or answering blank. */
  lemma GenerationNeverFails(b: Backends, id: Id)
    requires b.read(id).ReadOk?
    requires forall body :: body != [] ==>
               b.template(id, body).Rendered? && SendSucceeded(b.send(b.template(id, body).document))
    ensures SendReply(b, id).ok
  {
  }

  /** A failed read or template step ends the reply before anything is sent. */
  lemma EarlyFailureSendsNothing(b: Backends, id: Id)
    requires b.read(id).ReadFailed?
          || b.template(id, GenerateReply(b.read(id).content, b.complete)).TemplateFailed?
    ensures SendReply(b, id).status.None? && !SendReply(b, id).ok
  {
  }
}
