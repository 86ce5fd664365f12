/**
  The mail backend adapter: the outcomes of the `himalaya` calls, the bounded
  retry around envelope listing, and the classification of a send's exit
  status. The processes themselves are not modelled; each call is represented
  by the outcome it produced.
 */
module MailBackend {
  import Text
  import opened Envelope

  /** How many times envelope listing is tried before giving up. */
  const MaxListAttempts: nat := 3

  /** One run of `himalaya envelope list -o json`: the parsed envelopes, or a
      failure (non-zero exit, or output that is not valid JSON). */
  datatype ListAttempt = Listed(envelopes: seq<Envelope>) | ListFailed

  /** What listing produced and how many attempts it used. */
  datatype Listing = Listing(envelopes: seq<Envelope>, attempts: nat)

  /** Reference definition of listing from attempt number `from` on: the first
      successful attempt wins; after the last attempt fails, the listing is empty. */
  function ListFrom(outcome: nat -> ListAttempt, from: nat): (r: Listing)
    requires from <= MaxListAttempts
    ensures from < r.attempts <= MaxListAttempts || (from == MaxListAttempts && r.attempts == from)
    ensures forall k :: from <= k < r.attempts - 1 ==> outcome(k).ListFailed?
    ensures r.attempts > from && outcome(r.attempts - 1).Listed? ==>
              r.envelopes == outcome(r.attempts - 1).envelopes
    ensures (r.attempts == from || outcome(r.attempts - 1).ListFailed?) ==>
              r.attempts == MaxListAttempts && r.envelopes == []
    decreases MaxListAttempts - from
  {
    if from == MaxListAttempts then Listing([], from)
    else match outcome(from)
      case Listed(es) => Listing(es, from + 1)
      case ListFailed => ListFrom(outcome, from + 1)
  }

  /** `get_envelopes()`: at most three attempts; the envelopes of the first
      successful one, or the empty list when all three fail. */
  method GetEnvelopes(outcome: nat -> ListAttempt) returns (envelopes: seq<Envelope>, attempts: nat)
    ensures 1 <= attempts <= MaxListAttempts
    ensures forall k :: 0 <= k < attempts - 1 ==> outcome(k).ListFailed?
    ensures outcome(attempts - 1).Listed? ==> envelopes == outcome(attempts - 1).envelopes
    ensures outcome(attempts - 1).ListFailed? ==> attempts == MaxListAttempts && envelopes == []
    ensures Listing(envelopes, attempts) == ListFrom(outcome, 0)
  {
    var attempt: nat := 0;
    while attempt < MaxListAttempts
      invariant attempt <= MaxListAttempts
      invariant forall k :: 0 <= k < attempt ==> outcome(k).ListFailed?
      invariant ListFrom(outcome, attempt) == ListFrom(outcome, 0)
    {
      match outcome(attempt)
      case Listed(es) =>
        return es, attempt + 1;
      case ListFailed =>
        attempt := attempt + 1;
    }
    return [], MaxListAttempts;
  }

  // ---------------------------------------------------------------------------
  // Sending
  // ---------------------------------------------------------------------------

  /** The text `himalaya message send` writes to stderr when the message went
      out but could not be saved to the Sent folder. */
  const ArchiveFailureMarker: string := "cannot add IMAP message"

  /** How a finished `himalaya message send` process is judged. */
  datatype SendStatus =
    | Delivered                               // exit status 0
    | DeliveredNotArchived                    // non-zero, but only saving to Sent failed
    | SendFailed(returncode: int, stderr: string) // any other non-zero exit

  /** Judges the exit status and stderr of the send process. A non-zero exit
      whose stderr mentions the archive-failure marker counts as delivered; any
      other non-zero exit is a failure that keeps its diagnostic text. */
  function ClassifySend(returncode: int, stderr: string): (st: SendStatus)
    ensures st.Delivered? <==> returncode == 0
    ensures st.DeliveredNotArchived? <==>
              returncode != 0 && Text.IsSubstring(ArchiveFailureMarker, stderr)
    ensures st.SendFailed? ==> st == SendFailed(returncode, stderr)
  {
    if returncode == 0 then Delivered
    else if Text.Contains(stderr, ArchiveFailureMarker) then DeliveredNotArchived
    else SendFailed(returncode, stderr)
  }

  /** Whether a send status means the reply counts as sent. */
  predicate IsDelivered(st: SendStatus)
  {
    !st.SendFailed?
  }

  /** Success is exactly exit status 0, or a non-zero exit carrying the marker. */
  lemma DeliveredIff(returncode: int, stderr: string)
    ensures IsDelivered(ClassifySend(returncode, stderr)) <==>
              returncode == 0 || Text.IsSubstring(ArchiveFailureMarker, stderr)
  {
  }
}
