# Auto-reply bot: decision logic

This project models the control logic of `auto_reply.py`, a bot that watches a
mailbox for one hour and answers mail from a fixed list of senders. It lists
envelopes with `himalaya`, picks the newest envelope from a target sender, and
skips it if it was already answered. Otherwise it writes a reply with a local
`ollama` model and sends it through `himalaya`. Every external call
(`himalaya envelope list`, `message read`, `template reply`, `message send`,
`ollama run`) is modelled as an outcome value, or as a function from the
call's input to its outcome. With those abstracted, the logic is a set of pure
functions, listed by module below.

- `Text` (text.dfy): Python's `pat in s`, `str.strip()`, `<=` on `str`,
  `str.isdigit()` and `int(s)`.
- `Envelope` (envelope.dfy): the listing entry and its fields. It defines the
  sender address that targets are matched against, and the sort key of an id.
  The key is numeric for ints and digit strings, and the raw string otherwise.
- `Selection` (selection.dfy): the target filter and the choice of the newest
  candidate (head of a stable descending sort by key).
- `MailBackend` (mail.dfy): listing with at most three attempts, and the
  classification of a send's exit status, including the
  `cannot add IMAP message` soft success.
- `Generation` (generation.dfy): the prompt and the fallback reply.
- `Composer` (composer.dfy): `send_reply`, which reads the email, generates a
  reply, renders the template and sends.
- `Scheduler` (scheduler.dfy): one poll cycle, and the one-hour loop over
  clock readings.
- `Scenarios` (scenarios.dfy): concrete cycles. These include a target chosen
  over a non-target, an already-processed id skipped, listing failing three
  times, and an archive failure counted as sent.

Identifiers are `Int(n) | Str(s) | Absent`, compared by raw value, so
`Int(9) != Str("9")` in the processed set. `Absent` is an envelope without an
`id` key. It sorts as 0 and is recorded as Python's `None`.

Points where the code's behaviour is easy to misread:

- Scratch file. The code removes `reply.eml` only on the path that returns
  true. The model makes no removal claim for the failure paths.
- Mixed ids. When the target list holds both a numeric key and a string key,
  the sort at `auto_reply.py:157` raises an uncaught `TypeError`. The model
  makes "all target keys of one kind" a precondition (`UniformKeys`).
- Int ids. An int id is always compared as a number, negative ones included:
  a non-negative int goes through `str(id).isdigit()` and `int(id)`, which
  gives the int back, and a negative int fails `isdigit()` and is compared
  as its raw value.

## Model

| member | source | states |
|---|---|---|
| Text.ContainsFrom | auto_reply.py:153 | the search from offset `i` succeeds exactly when the pattern occurs at some offset at or after `i` |
| Text.Contains | auto_reply.py:153 | Python's `pat in s`: true exactly when `pat` occurs as a contiguous slice of `s` |
| Text.Strip | auto_reply.py:55 | `str.strip()`: the result is a slice of the input with only whitespace around it, neither starting nor ending with whitespace; it is empty exactly when the input is all whitespace |
| Text.StripIdempotent | auto_reply.py:55 | stripping a stripped reply changes nothing |
| Text.LexLeTotal | auto_reply.py:157 | any two string ids are ordered one way or the other by Python's string comparison |
| Text.LexLeTransitive | auto_reply.py:157 | Python's string comparison is transitive |
| Text.LexLeAntisymmetric | auto_reply.py:157 | two strings each at most the other are equal |
| Text.DecimalValue | auto_reply.py:157 | `int(s)` of a digit string is zero exactly when every digit is 0, and a string of `k` digits denotes less than `10^k` |
| Text.NatToString | auto_reply.py:157 | `str(n)` of a non-negative int is a non-empty string of ASCII digits, so it passes `isdigit()` |
| Text.DecimalOfNatToString | auto_reply.py:157 | `int(str(n)) == n` for every non-negative `n` |
| Text.NatToStringCanonical | auto_reply.py:157 | `str(n)` has no leading zero (except `"0"` itself) |
| Text.NatToStringOfDecimal | auto_reply.py:157 | `str(int(s)) == s` for every digit string without a leading zero, so `int` and `str` are inverse on decimal numerals |
| Envelope.KeyOf | auto_reply.py:157 | the sort key is the number for an int id, `int(s)` for a digit string, the raw string for any other string, and 0 for a missing id |
| Envelope.IntKeyIsDigitStringKey | auto_reply.py:157 | a non-negative int id sorts exactly like the digit string `str(id)`, as the `str(...).isdigit()` / `int(...)` path computes |
| Envelope.KeyLeReflexive | auto_reply.py:157 | every key is at most itself |
| Envelope.KeyLeTotal | auto_reply.py:157 | two keys of the same kind are always comparable |
| Envelope.KeyLeTransitive | auto_reply.py:157 | key order is transitive within a kind |
| Envelope.SenderAddress | auto_reply.py:146-151 | the address matched against targets is `from.addr` for an object with an `addr` key, `""` for an object without one or for a missing `from` (the default `{}`), and `str(from)` for any other value |
| Selection.AnyContains | auto_reply.py:153 | `any(target in addr ...)` is true exactly when some target occurs in the address |
| Selection.FilterTargets | auto_reply.py:144-154 | an envelope is kept exactly when some target is a substring of its sender address (`from.addr`, `str(from)` or `""`) |
| Selection.FilterAppend | auto_reply.py:144-154 | filtering keeps listing order: filtering a concatenation is concatenating the filtered parts |
| Selection.LatestStep | auto_reply.py:157 | appending an envelope makes it the new head exactly when its key is strictly greater than the previous head's |
| Selection.LatestIndex | auto_reply.py:157-163 | the chosen position has a key at least every other key, and every earlier position has a strictly smaller key |
| Selection.LatestUnique | auto_reply.py:157-163 | at most one position is maximal and first among equals |
| Selection.SelectLatest | auto_reply.py:144-163 | nothing is selected exactly when no envelope is from a target; otherwise the selection is a target envelope of the listing whose key is at least that of every target envelope |
| Selection.SelectIsLatest | auto_reply.py:157-163 | on ties, the earliest target in listing order is selected (the sort is stable under `reverse=True`) |
| MailBackend.ListFrom | auto_reply.py:16-29 | attempts stop at the first success; all earlier attempts failed; the result is that success's envelopes, or the empty list after the third failure |
| MailBackend.GetEnvelopes | auto_reply.py:16-29 | the retry loop makes between one and three attempts, returns the first successful listing, returns `[]` when all three fail, and agrees with `ListFrom` |
| MailBackend.ClassifySend | auto_reply.py:104-110 | exit 0 is delivered; a non-zero exit with the marker in stderr is delivered without archiving; any other exit is a failure carrying its return code and stderr |
| MailBackend.DeliveredIff | auto_reply.py:104-120 | a send counts as successful exactly when it exits 0 or its stderr contains `cannot add IMAP message` |
| Generation.Prompt | auto_reply.py:33-44 | the email sits verbatim between the `--- START OF EMAIL ---` line and the `--- END OF EMAIL ---` line of the prompt |
| Generation.PromptEmbedsEmail | auto_reply.py:33-44 | the email can be read back out of its prompt unchanged |
| Generation.PromptInjective | auto_reply.py:33-44 | different emails give different prompts |
| Generation.GenerateReply | auto_reply.py:31-65 | the reply is never empty; a failed call or blank output gives the fixed fallback, and any other output is returned stripped |
| Composer.SendReply | auto_reply.py:67-123 | each step runs only after the previous one succeeded; the result is true exactly when reading and templating succeed and the send exits 0 or with the archive marker; the template receives the generated (non-empty) body |
| Composer.GenerationNeverFails | auto_reply.py:85-86 | a failed or blank completion cannot make the reply fail |
| Composer.EarlyFailureSendsNothing | auto_reply.py:72-92 | a failed read or template step returns false without running the send |
| Scheduler.Cycle | auto_reply.py:159-169 | the processed set only grows, by at most one id; an id is added only if it is the selected candidate, it was absent, and `send_reply` returned true; a reply is attempted exactly when a candidate exists and is not yet processed |
| Scheduler.ProcessedCandidateSkipped | auto_reply.py:164-165 | an already-processed candidate causes no reply attempt and no change |
| Scheduler.CycleAddsOnlyRepliedTarget | auto_reply.py:162-168 | every id a cycle adds belongs to a target envelope of that listing and was replied to successfully |
| Scheduler.NewestAnswer | auto_reply.py:159-168 | the id a cycle records when it is not yet processed: present exactly when the listing has a newest target and `send_reply` returns true for it, and then equal to that target's id |
| Scheduler.Iteration | auto_reply.py:142-169 | a reply is attempted exactly when the listing has a newest target whose id is not yet processed, and the attempt is for that id; the iteration records the id exactly when `send_reply` returns true, and otherwise records nothing; afterwards the newest target is processed whenever `send_reply` answers it with true |
| Scheduler.Run | auto_reply.py:137-175 | cycles run exactly for the ticks whose clock reading is less than an hour after start, stopping at the first one that is not; the processed set is the initial set plus the ids replied to; no id is replied to twice or after it was processed; every replied id is the newest target of one of the run's cycles, replied to successfully there; every newest target that a cycle's `send_reply` would answer with true ends up processed; there are at most as many replies as cycles |
| Scheduler.RunStep | auto_reply.py:137-175 | one guard-passing iteration, which processes its newest target whenever that target can be answered, followed by a sound run over the remaining ticks gives a sound run |
| Scheduler.AnswersAt | auto_reply.py:159-168 | the per-cycle answer list holds, at each position, the newest target of that tick when `send_reply` answers it with true |
| Scheduler.RunAnswersEveryNewest | auto_reply.py:159-168 | in every cycle of the run, a newest target that `send_reply` answers with true has its id in the final processed set: the loop never skips it |
| Scheduler.RunRepliesOnlyToNewest | auto_reply.py:159-168 | every id the run replied to is the newest target of one of its cycles, and `send_reply` returned true for it there |
| Scheduler.RunCycleBound | auto_reply.py:137-175 | with the one-minute sleep between guard checks, a run starting `m` minutes in has at most `60 - m` cycles |
| Scheduler.RunAtMostSixtyCycles | auto_reply.py:10 | a one-hour run has at most sixty cycles |
| Scenarios.ScenarioPicksTarget | auto_reply.py:144-163 | from ids 5 (other sender) and 9 (target), id 9 is selected |
| Scenarios.ScenarioAlreadyProcessed | auto_reply.py:164-165 | with 9 already processed, no reply is attempted |
| Scenarios.ScenarioListingFails | auto_reply.py:16-29 | three failed listings give `[]` and a cycle that does nothing |
| Scenarios.ScenarioArchiveFailureReplyOk | auto_reply.py:104-115 | exit 1 with the IMAP marker in stderr makes `send_reply` return true |
| Scenarios.ScenarioArchiveFailureCountsAsSent | auto_reply.py:104-108 | exit 1 with the IMAP marker in stderr records the id as processed |
| Scenarios.ScenarioSendFails | auto_reply.py:109-110 | exit 1 with another error records nothing |
| Scenarios.ScenarioDigitStringsCompareNumerically | auto_reply.py:157 | the id "10" is newer than "9" |
| Scenarios.ScenarioTieKeepsListingOrder | auto_reply.py:157 | of `7` and `"007"`, which share key 7, the first listed is chosen |
| Scenarios.ScenarioIntAndStringIdsDiffer | auto_reply.py:165 | having processed `"9"` does not block a reply to `9` |

## Left out

- External processes: all `subprocess.run` calls and `json.loads` are outcome values. The processes, their arguments and their output formats are not modelled.
- Scratch file and send exceptions: writing and removing `reply.eml` is folded into the send outcome. Any exception of the send step other than the failed-exit one is `SendRaised`, which makes `send_reply` return false: failing to open, write or remove the file, the `himalaya message send` process failing to start, or its output failing to decode as text. Only the success path removes the file. A failure to remove the file after a successful send also gives `SendRaised`: the email went out, but `send_reply` returns false, so the id is not recorded and a later cycle may reply to it again.
- Timing: `time.sleep(5)` between listing attempts (it also runs after the third failure) and `time.sleep(60)` after each cycle are not modelled. The one-minute gap only appears as the premise of `RunCycleBound`.
- Clock: the float "remaining minutes" figure is not modelled. The clock is an integer reading taken at each loop guard.
- Run: ends when its finite sequence of ticks runs out, as well as when the hour is over.
- Logging: log lines and stdout flushing are not modelled. The envelope subject is only logged, so it has no effect.
- Initial scan: the commented-out scan that would pre-fill the processed set is not modelled.
- Scheduler.Cycle: does not model the crash in the log line that calls `.get('addr')` on the candidate's `from`. When that field is not a JSON object, the source raises an uncaught `AttributeError` there and ends the program. The model treats the log line as having no effect.
- Selection.SelectLatest: requires the target envelopes' keys to be all numeric or all strings. Otherwise the source's sort raises an uncaught `TypeError`, which the model does not represent as an outcome.
- Envelope.KeyOf: `str.isdigit()` is modelled for ASCII digits only. Python also accepts other Unicode digits, and `int()` rejects some of them.
- JSON `null` id: not modelled. Its sort key is `None`. The sort at `auto_reply.py:157` raises `TypeError` only when it compares that key with another, that is when the target list has two or more entries. A lone null-id target is sorted without any comparison and replied to with `eid = None`. A null id on a non-target envelope is never sorted at all.
- JSON values beyond the model: these inputs are not modelled, and several of them end the program with an uncaught exception.
  - A non-string `addr`, and boolean or float ids.
  - A listing that parses to something other than a list.
  - Listing entries that are not JSON objects: `env.get` at `auto_reply.py:146` raises `AttributeError`.
  - Ids that are JSON arrays or objects: `eid not in PROCESSED_IDS` at `auto_reply.py:165` raises `TypeError` (unhashable).
- Digit limit: Python 3.11 and later refuse `int(s)` and `str(n)` on numbers with more than 4300 digits (`ValueError`). The sort key at `auto_reply.py:157` would then raise; the model converts numbers of any length.
- Lone surrogates: Python strings may hold lone surrogates, which a Dafny `char` cannot.
