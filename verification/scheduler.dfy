/**
  The main loop: one poll cycle (list, select the newest target, skip it if
  already handled, otherwise reply and remember it) repeated while less than
  an hour has passed since start. Clock readings are inputs; each cycle is
  followed by a one-minute sleep.
 */
module Scheduler {
  import opened Wrappers
  import opened Envelope
  import opened Selection
  import opened MailBackend
  import opened Composer

  /** Length of the run, in seconds. */
  const Duration: int := 3600

  /** The sleep after every cycle, in seconds. */
  const PollInterval: int := 60

  /** What one cycle did. `attempted` is the id handed to `send_reply`, if any;
      `sent` is whether a reply was recorded (`processed_count > 0`). */
  datatype CycleOutcome = CycleOutcome(processed: set<Id>, attempted: Option<Id>, sent: bool)

  /** The body of the main loop, after the envelopes have been listed. */
  function Cycle(envs: seq<Envelope>, targets: seq<string>, processed: set<Id>, b: Backends): (o: CycleOutcome)
    requires UniformKeys(FilterTargets(envs, targets))
    ensures processed <= o.processed && |o.processed| <= |processed| + 1
    ensures o.sent <==> o.processed != processed
    ensures o.attempted.Some? <==>
              SelectLatest(envs, targets).Some? && SelectLatest(envs, targets).value.id !in processed
    ensures o.attempted.Some? ==> o.attempted.value == SelectLatest(envs, targets).value.id
    ensures o.sent <==> o.attempted.Some? && SendReply(b, o.attempted.value).ok
    ensures o.sent ==> o.processed == processed + {o.attempted.value}
  {
    match SelectLatest(envs, targets)
    case None => CycleOutcome(processed, None, false)
    case Some(latest) =>
      if latest.id in processed then CycleOutcome(processed, None, false)
      else if SendReply(b, latest.id).ok then CycleOutcome(processed + {latest.id}, Some(latest.id), true)
      else CycleOutcome(processed, Some(latest.id), false)
  }

  /** An id already handled is never replied to again: the cycle makes no call
      and leaves the processed set as it was. */
  lemma ProcessedCandidateSkipped(envs: seq<Envelope>, targets: seq<string>, processed: set<Id>, b: Backends)
    requires UniformKeys(FilterTargets(envs, targets))
    requires SelectLatest(envs, targets).Some? && SelectLatest(envs, targets).value.id in processed
    ensures Cycle(envs, targets, processed, b) == CycleOutcome(processed, None, false)
  {
  }

  /** Whatever a cycle adds to the processed set is the id of a target envelope
      from this cycle's listing, for which `send_reply` returned true. */
  lemma CycleAddsOnlyRepliedTarget(envs: seq<Envelope>, targets: seq<string>, processed: set<Id>, b: Backends, id: Id)
    requires UniformKeys(FilterTargets(envs, targets))
    requires id in Cycle(envs, targets, processed, b).processed && id !in processed
    ensures exists e :: e in envs && IsTarget(e, targets) && e.id == id
    ensures SendReply(b, id).ok
  {
    var e := SelectLatest(envs, targets).value;
    assert e in envs && IsTarget(e, targets) && e.id == id;
  }

  /** The inputs of one loop iteration: the clock reading at the loop guard,
      the outcomes of the listing attempts, and the backends for the reply. */
  datatype Tick = Tick(now: int, listing: nat -> ListAttempt, backends: Backends)

  /** The state the loop leaves behind: the processed set, the ids replied to
      in order, and the number of cycles run. */
  datatype RunResult = RunResult(processed: set<Id>, replied: seq<Id>, cycles: nat)

  /** The envelopes a tick's listing produces. */
  function TickEnvelopes(t: Tick): seq<Envelope>
  {
    ListFrom(t.listing, 0).envelopes
  }

  /** Every cycle of `ticks` can sort its target envelopes. */
  predicate Sortable(ticks: seq<Tick>, targets: seq<string>)
  {
    forall i :: 0 <= i < |ticks| ==> UniformKeys(FilterTargets(TickEnvelopes(ticks[i]), targets))
  }

  /** No id occurs twice in `ids`. */
  predicate Distinct(ids: seq<Id>)
  {
    forall i, j :: 0 <= i < j < |ids| ==> ids[i] != ids[j]
  }

  /** The ids listed in `ids`, as a set. */
  function IdSet(ids: seq<Id>): (s: set<Id>)
    ensures forall x :: x in s <==> x in ids
  {
    set x | x in ids
  }

  /** Prepending a fresh id to a duplicate-free sequence keeps it duplicate-free. */
  lemma DistinctCons(x: Id, ids: seq<Id>)
    requires Distinct(ids) && x !in ids
    ensures Distinct([x] + ids)
  {
    assert forall j :: 0 < j < |[x] + ids| ==> ([x] + ids)[j] == ids[j - 1];
  }

  /** The id that tick `t`'s cycle records when it is not yet processed: the
      id of the newest target envelope (the head of the sorted target list)
      when `send_reply` returns true for it, and nothing otherwise. */
  function NewestAnswer(t: Tick, targets: seq<string>): (a: Option<Id>)
    requires UniformKeys(FilterTargets(TickEnvelopes(t), targets))
    ensures a.Some? <==>
              SelectLatest(TickEnvelopes(t), targets).Some?
              && SendReply(t.backends, SelectLatest(TickEnvelopes(t), targets).value.id).ok
    ensures a.Some? ==> a.value == SelectLatest(TickEnvelopes(t), targets).value.id
  {
    match SelectLatest(TickEnvelopes(t), targets)
    case None => None
    case Some(e) => if SendReply(t.backends, e.id).ok then Some(e.id) else None
  }

  /** One loop iteration: list the envelopes (with retries), then run a cycle. */
  function Iteration(t: Tick, targets: seq<string>, processed: set<Id>): (o: CycleOutcome)
    requires UniformKeys(FilterTargets(TickEnvelopes(t), targets))
    ensures o.attempted.Some? <==>
              SelectLatest(TickEnvelopes(t), targets).Some?
              && SelectLatest(TickEnvelopes(t), targets).value.id !in processed
    ensures o.attempted.Some? ==> o.attempted.value == SelectLatest(TickEnvelopes(t), targets).value.id
    ensures o.sent <==> o.attempted.Some? && SendReply(t.backends, o.attempted.value).ok
    ensures o.sent ==> o.attempted.Some? && o.attempted.value !in processed
                       && o.processed == processed + {o.attempted.value}
                       && NewestAnswer(t, targets) == Some(o.attempted.value)
    ensures !o.sent ==> o.processed == processed
    ensures NewestAnswer(t, targets).Some? ==> NewestAnswer(t, targets).value in o.processed
  {
    Cycle(TickEnvelopes(t), targets, processed, t.backends)
  }

  /** The ticks after the first still satisfy `Sortable`. */
  lemma SortableTail(ticks: seq<Tick>, targets: seq<string>)
    requires |ticks| > 0 && Sortable(ticks, targets)
    ensures Sortable(ticks[1..], targets)
  {
    assert forall i :: 0 <= i < |ticks| - 1 ==> ticks[1..][i] == ticks[i + 1];
  }

  /** `NewestAnswer` of every tick, in order. */
  function Answers(ticks: seq<Tick>, targets: seq<string>): (ans: seq<Option<Id>>)
    requires Sortable(ticks, targets)
    ensures |ans| == |ticks|
    decreases |ticks|
  {
    if |ticks| == 0 then []
    else
      SortableTail(ticks, targets);
      [NewestAnswer(ticks[0], targets)] + Answers(ticks[1..], targets)
  }

  /** Position `i` of `Answers` is the answer of tick `i`. */
  lemma {:induction false} AnswersAt(ticks: seq<Tick>, targets: seq<string>, i: nat)
    requires Sortable(ticks, targets) && i < |ticks|
    ensures Answers(ticks, targets)[i] == NewestAnswer(ticks[i], targets)
    decreases i
  {
    if i > 0 {
      SortableTail(ticks, targets);
      AnswersAt(ticks[1..], targets, i - 1);
    }
  }

  /** The first `cycles` ticks pass the loop guard `now - start < Duration`, and
      the loop stops at the next one, if there is a next one. */
  ghost predicate StopsAtHour(start: int, ticks: seq<Tick>, cycles: nat)
  {
    && cycles <= |ticks|
    && (forall i :: 0 <= i < cycles ==> ticks[i].now - start < Duration)
    && (cycles == |ticks| || ticks[cycles].now - start >= Duration)
  }

  /** Every id in `replied` is the answer of one of the first `cycles` ticks:
      the newest target of that cycle, replied to successfully. */
  ghost predicate RepliesTraced(ans: seq<Option<Id>>, replied: seq<Id>, cycles: nat)
  {
    && cycles <= |ans|
    && forall x :: x in replied ==> exists i :: 0 <= i < cycles && ans[i] == Some(x)
  }

  /** The answer of each of the first `cycles` ticks ends up in `processed`:
      the loop never skips a newest target it could answer. */
  ghost predicate AnswersNewest(ans: seq<Option<Id>>, processed: set<Id>, cycles: nat)
  {
    && cycles <= |ans|
    && forall i :: 0 <= i < cycles && ans[i].Some? ==> ans[i].value in processed
  }

  /** The bookkeeping part of `RunSound`. */
  ghost predicate Records(processed: set<Id>, r: RunResult)
  {
    && r.processed == processed + IdSet(r.replied)
    && Distinct(r.replied)
    && (forall x :: x in r.replied ==> x !in processed)
    && |r.replied| <= r.cycles
  }

  /** What the loop promises about its result `r` when it starts from the
      processed set `processed`: the processed set is the initial one plus the
      ids replied to; no id is replied to twice or after it was processed; the
      cycles are exactly the ticks that pass the guard; every reply went to the
      newest target of one of those cycles; and every newest target a cycle
      could answer is processed in the end. */
  ghost predicate RunSound(start: int, ticks: seq<Tick>, targets: seq<string>, processed: set<Id>, r: RunResult)
    requires Sortable(ticks, targets)
  {
    && Records(processed, r)
    && StopsAtHour(start, ticks, r.cycles)
    && RepliesTraced(Answers(ticks, targets), r.replied, r.cycles)
    && AnswersNewest(Answers(ticks, targets), r.processed, r.cycles)
  }

  /** The result of a run whose first cycle had outcome `o`, followed by the
      run `rest` over the remaining ticks. */
  function Extend(o: CycleOutcome, rest: RunResult): (r: RunResult)
    requires o.sent ==> o.attempted.Some?
    ensures r.processed == rest.processed && r.cycles == 1 + rest.cycles
  {
    if o.sent then RunResult(rest.processed, [o.attempted.value] + rest.replied, 1 + rest.cycles)
    else RunResult(rest.processed, rest.replied, 1 + rest.cycles)
  }

  /** Shifting the rest of the run by one tick keeps the clock facts. */
  lemma ShiftClock(start: int, ticks: seq<Tick>, cycles: nat)
    requires |ticks| > 0 && ticks[0].now - start < Duration
    requires StopsAtHour(start, ticks[1..], cycles)
    ensures StopsAtHour(start, ticks, 1 + cycles)
  {
    assert forall i :: 0 <= i < |ticks| - 1 ==> ticks[1..][i] == ticks[i + 1];
  }

  /** Shifting the rest of the run by one tick keeps the replies traced. */
  lemma ShiftTrace(ans: seq<Option<Id>>, added: seq<Id>, replied: seq<Id>, cycles: nat)
    requires |ans| > 0
    requires forall x :: x in added ==> ans[0] == Some(x)
    requires RepliesTraced(ans[1..], replied, cycles)
    ensures RepliesTraced(ans, added + replied, 1 + cycles)
  {
    forall x | x in added + replied
      ensures exists i :: 0 <= i < 1 + cycles && ans[i] == Some(x)
    {
      if x !in added {
        var i :| 0 <= i < cycles && ans[1..][i] == Some(x);
        assert ans[i + 1] == Some(x);
      }
    }
  }

  /** Shifting the rest of the run by one tick keeps `AnswersNewest`. */
  lemma ShiftAnswers(ans: seq<Option<Id>>, processed: set<Id>, cycles: nat)
    requires |ans| > 0
    requires ans[0].Some? ==> ans[0].value in processed
    requires AnswersNewest(ans[1..], processed, cycles)
    ensures AnswersNewest(ans, processed, 1 + cycles)
  {
    assert forall i :: 0 <= i < |ans| - 1 ==> ans[1..][i] == ans[i + 1];
  }

  /** One recorded reply followed by the rest of the run keeps `Records`. */
  lemma ExtendRecords(processed: set<Id>, o: CycleOutcome, rest: RunResult)
    requires o.sent ==> o.attempted.Some? && o.attempted.value !in processed
                        && o.processed == processed + {o.attempted.value}
    requires !o.sent ==> o.processed == processed
    requires Records(o.processed, rest)
    ensures Records(processed, Extend(o, rest))
  {
    if o.sent {
      DistinctCons(o.attempted.value, rest.replied);
    }
  }

  /** `Answers` is the first tick's answer followed by the answers of the rest. */
  lemma AnswersCons(ticks: seq<Tick>, targets: seq<string>)
    requires |ticks| > 0 && Sortable(ticks, targets)
    ensures Sortable(ticks[1..], targets)
    ensures Answers(ticks, targets)[0] == NewestAnswer(ticks[0], targets)
    ensures Answers(ticks, targets)[1..] == Answers(ticks[1..], targets)
  {
    SortableTail(ticks, targets);
  }

  /** One loop iteration followed by the rest of the run keeps each part of
      `RunSound`; `ans` holds the answers of `ticks`. */
  lemma RunStep(start: int, ticks: seq<Tick>, ans: seq<Option<Id>>, processed: set<Id>, o: CycleOutcome, rest: RunResult)
    requires |ticks| > 0 && |ans| == |ticks| && ticks[0].now - start < Duration
    requires o.sent ==> o.attempted.Some? && o.attempted.value !in processed
                        && o.processed == processed + {o.attempted.value}
                        && ans[0] == Some(o.attempted.value)
    requires !o.sent ==> o.processed == processed
    requires ans[0].Some? ==> ans[0].value in o.processed
    requires Records(o.processed, rest)
    requires StopsAtHour(start, ticks[1..], rest.cycles)
    requires RepliesTraced(ans[1..], rest.replied, rest.cycles)
    requires AnswersNewest(ans[1..], rest.processed, rest.cycles)
    ensures Records(processed, Extend(o, rest))
    ensures StopsAtHour(start, ticks, Extend(o, rest).cycles)
    ensures RepliesTraced(ans, Extend(o, rest).replied, Extend(o, rest).cycles)
    ensures AnswersNewest(ans, Extend(o, rest).processed, Extend(o, rest).cycles)
  {
    var r := Extend(o, rest);
    ExtendRecords(processed, o, rest);
    ShiftClock(start, ticks, rest.cycles);
    assert o.processed <= rest.processed;
    ShiftAnswers(ans, rest.processed, rest.cycles);
    var added := if o.sent then [o.attempted.value] else [];
    ShiftTrace(ans, added, rest.replied, rest.cycles);
    assert r.replied == added + rest.replied;
  }

  /** The main loop from the given processed set: it stops at the first tick
      whose clock reading is an hour or more after `start`, or when the ticks
      run out. */
  function Run(start: int, ticks: seq<Tick>, targets: seq<string>, processed: set<Id>): (r: RunResult)
    requires Sortable(ticks, targets)
    ensures RunSound(start, ticks, targets, processed, r)
    decreases |ticks|
  {
    if |ticks| == 0 || ticks[0].now - start >= Duration then RunResult(processed, [], 0)
    else
      var o := Iteration(ticks[0], targets, processed);
      SortableTail(ticks, targets);
      var rest := Run(start, ticks[1..], targets, o.processed);
      AnswersCons(ticks, targets);
      RunStep(start, ticks, Answers(ticks, targets), processed, o, rest);
      Extend(o, rest)
  }

  /** No newest target is skipped: in every cycle of the run whose newest
      target `send_reply` answers with true, that target's id is in the final
      processed set (it was replied to then, or had been handled before). */
  lemma RunAnswersEveryNewest(start: int, ticks: seq<Tick>, targets: seq<string>, processed: set<Id>, i: nat)
    requires Sortable(ticks, targets)
    requires i < Run(start, ticks, targets, processed).cycles
    requires NewestAnswer(ticks[i], targets).Some?
    ensures NewestAnswer(ticks[i], targets).value in Run(start, ticks, targets, processed).processed
  {
    AnswersAt(ticks, targets, i);
  }

  /** Every id the run replied to is the newest target of one of its cycles,
      and `send_reply` returned true for it in that cycle. */
  lemma RunRepliesOnlyToNewest(start: int, ticks: seq<Tick>, targets: seq<string>, processed: set<Id>, x: Id)
    requires Sortable(ticks, targets)
    requires x in Run(start, ticks, targets, processed).replied
    ensures exists i :: 0 <= i < Run(start, ticks, targets, processed).cycles
                        && NewestAnswer(ticks[i], targets) == Some(x)
  {
    var r := Run(start, ticks, targets, processed);
    var i :| 0 <= i < r.cycles && Answers(ticks, targets)[i] == Some(x);
    AnswersAt(ticks, targets, i);
  }

  /** Because every cycle ends with a one-minute sleep, clock readings at the
      loop guard are at least a minute apart; an hour then holds at most sixty
      cycles. `m` is how many minutes into the run the first reading is. */
  lemma {:induction false} RunCycleBound(start: int, ticks: seq<Tick>, targets: seq<string>, processed: set<Id>, m: nat)
    requires Sortable(ticks, targets)
    requires |ticks| > 0 ==> ticks[0].now >= start + PollInterval * m
    requires forall i :: 0 <= i < |ticks| - 1 ==> ticks[i + 1].now >= ticks[i].now + PollInterval
    ensures Run(start, ticks, targets, processed).cycles <= if m <= 60 then 60 - m else 0
    decreases |ticks|
  {
    if |ticks| > 0 && ticks[0].now - start < Duration {
      var o := Iteration(ticks[0], targets, processed);
      var rest := ticks[1..];
      SortableTail(ticks, targets);
      assert forall i :: 0 <= i < |rest| - 1 ==> rest[i + 1].now >= rest[i].now + PollInterval by {
        assert forall i :: 0 <= i < |rest| ==> rest[i] == ticks[i + 1];
      }
      RunCycleBound(start, rest, targets, o.processed, m + 1);
    }
  }

  /** A run that starts on time has at most sixty cycles. */
  lemma RunAtMostSixtyCycles(start: int, ticks: seq<Tick>, targets: seq<string>)
    requires Sortable(ticks, targets)
    requires |ticks| > 0 ==> ticks[0].now >= start
    requires forall i :: 0 <= i < |ticks| - 1 ==> ticks[i + 1].now >= ticks[i].now + PollInterval
    ensures Run(start, ticks, targets, {}).cycles <= Duration / PollInterval
  {
    RunCycleBound(start, ticks, targets, {}, 0);
  }
}
