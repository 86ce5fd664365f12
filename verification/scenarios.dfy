/**
  Concrete cycles worked through the model: end-to-end cycles of the bot, and
  the identifier edge cases of its selection.
 */
module Scenarios {
  import opened Wrappers
  import Text
  import opened Envelope
  import opened Selection
  import opened MailBackend
  import opened Generation
  import opened Composer
  import opened Scheduler

  function From(addr: string): Sender
  {
    FromRecord(Some(addr))
  }

  /** Backends where every step succeeds, with the given send result. */
  function Working(sendResult: SendStep): Backends
  {
    Backends(
      _ => ReadOk("Hello"),
      _ => Completed("Thanks!"),
      (_, body) => Rendered("To: x\n\n" + body),
      _ => sendResult)
  }

  /** Of two envelopes, only the one from a target is a candidate. */
  lemma ScenarioPicksTarget()
    ensures var envs := [Envelope(Int(5), From("a@x.com"), None),
                         Envelope(Int(9), From("testuser001@outlook.com"), None)];
            SelectLatest(envs, TargetEmails) == Some(envs[1])
  {
    var envs := [Envelope(Int(5), From("a@x.com"), None),
                 Envelope(Int(9), From("testuser001@outlook.com"), None)];
    assert !Text.Contains("a@x.com", TargetEmails[0]);
    assert !Text.Contains("a@x.com", TargetEmails[1]);
  }

  /** The newest target was already replied to: no reply is attempted. */
  lemma ScenarioAlreadyProcessed(b: Backends)
    ensures var envs := [Envelope(Int(5), From("a@x.com"), None),
                         Envelope(Int(9), From("testuser001@outlook.com"), None)];
            Cycle(envs, TargetEmails, {Int(9)}, b) == CycleOutcome({Int(9)}, None, false)
  {
    ScenarioPicksTarget();
  }

  /** Listing fails three times: the cycle sees no envelopes and does nothing. */
  lemma ScenarioListingFails(processed: set<Id>, b: Backends)
    ensures ListFrom(_ => ListFailed, 0) == Listing([], MaxListAttempts)
    ensures Cycle([], TargetEmails, processed, b) == CycleOutcome(processed, None, false)
  {
  }

  /** Stderr of a send that went out but could not be saved to Sent. */
  const ArchiveStderr: string := "cannot add IMAP message: folder Sent not found"

  /** The send exits with status 1 because the Sent folder could not be
      updated: `send_reply` still returns true. */
  lemma ScenarioArchiveFailureReplyOk()
    ensures SendReply(Working(Exited(1, ArchiveStderr)), Int(9)).ok
  {
    assert Text.OccursAt(ArchiveFailureMarker, ArchiveStderr, 0);
  }

  /** ... and the cycle records the id as processed. */
  lemma ScenarioArchiveFailureCountsAsSent()
    ensures var envs := [Envelope(Int(5), From("a@x.com"), None),
                         Envelope(Int(9), From("testuser001@outlook.com"), None)];
            Cycle(envs, TargetEmails, {}, Working(Exited(1, ArchiveStderr)))
              == CycleOutcome({Int(9)}, Some(Int(9)), true)
  {
    ScenarioPicksTarget();
    ScenarioArchiveFailureReplyOk();
  }

  /** Any other non-zero exit is a failure: nothing is recorded, and the same
      envelope is tried again next cycle if it is still the newest. */
  lemma ScenarioSendFails()
    ensures var envs := [Envelope(Int(9), From("testuser001@outlook.com"), None)];
            var b := Working(Exited(1, "authentication failed"));
            Cycle(envs, TargetEmails, {}, b) == CycleOutcome({}, Some(Int(9)), false)
  {
    var envs := [Envelope(Int(9), From("testuser001@outlook.com"), None)];
    assert Text.OccursAt(TargetEmails[0], "testuser001@outlook.com", 0);
    assert !Text.Contains("authentication failed", ArchiveFailureMarker);
  }

  /** Digit-string ids compare as numbers: "10" is newer than "9", although
      "9" > "10" as strings. */
  lemma ScenarioDigitStringsCompareNumerically()
    ensures var envs := [Envelope(Str("9"), From("testuser001@outlook.in"), None),
                         Envelope(Str("10"), From("testuser001@outlook.in"), None)];
            SelectLatest(envs, TargetEmails) == Some(envs[1])
  {
    var envs := [Envelope(Str("9"), From("testuser001@outlook.in"), None),
                 Envelope(Str("10"), From("testuser001@outlook.in"), None)];
    assert Text.OccursAt(TargetEmails[1], "testuser001@outlook.in", 0);
    assert FilterTargets(envs, TargetEmails) == envs;
    assert Key(envs[0]) == NumKey(9) && Key(envs[1]) == NumKey(10);
  }

  /** Equal keys keep listing order: `Int(7)` and `Str("007")` both sort as 7,
      and the earlier one is chosen. */
  lemma ScenarioTieKeepsListingOrder()
    ensures var envs := [Envelope(Int(7), From("testuser001@outlook.in"), None),
                         Envelope(Str("007"), From("testuser001@outlook.in"), None)];
            SelectLatest(envs, TargetEmails) == Some(envs[0])
  {
    var envs := [Envelope(Int(7), From("testuser001@outlook.in"), None),
                 Envelope(Str("007"), From("testuser001@outlook.in"), None)];
    assert Text.OccursAt(TargetEmails[1], "testuser001@outlook.in", 0);
    assert FilterTargets(envs, TargetEmails) == envs;
    assert Text.DecimalValue("007") == 7;
    assert Key(envs[0]) == Key(envs[1]) == NumKey(7);
    assert IsLatest(envs, 0);
    SelectIsLatest(envs, TargetEmails, 0);
  }

  /** The processed set compares raw ids: having replied to `Str("9")` does not
      stop a reply to `Int(9)`. */
  lemma ScenarioIntAndStringIdsDiffer(b: Backends)
    requires SendReply(b, Int(9)).ok
    ensures var envs := [Envelope(Int(9), From("testuser001@outlook.com"), None)];
            Cycle(envs, TargetEmails, {Str("9")}, b).processed == {Str("9"), Int(9)}
  {
    assert Text.OccursAt(TargetEmails[0], "testuser001@outlook.com", 0);
  }
}
