# A verified model of Lightr's mail engine

Lightr is a mail server front end: it compiles filter rules for Dovecot, routes and
queues mail, limits requests, moves mailboxes, forwards and un-forwards messages,
edits its own configuration and keeps live views of folders. This project models
eleven of its algorithms in Dafny and proves what each promises, over every input,
every run or every interleaving. `dafny verify dfyconfig.toml` checks all of it.

| files | what they model |
|---|---|
| `Text`, `Lines` | the string operations the other modules share |
| `RuleOrder`, `SieveStrings`, `SieveEngine`, `SieveLayout`, `SieveScript`, `SieveCompile`, `SieveMeaning`, `SieveEmission`, `SieveCorrect`, `SieveScores` | the Sieve compiler: rules to text, a Sieve engine that lexes, parses and runs that text (RFC 5228), and the meaning of rules stated without Sieve |
| `Queue`, `QueueProtocol`, `QueueRuns`, `Sender` | the outbound queue, many senders interleaving on it, how often a message can be delivered, and direct delivery by recipient domain |
| `Routing`, `RoutingDecision` | alias expansion, and the routing decision stated on the tables |
| `RateLimit` | token buckets, the sweeping limiter and the per-key limiter |
| `Mbox` | mboxrd escaping, writing and reading |
| `Lmtp` | DATA transparency, the LMTP transaction, and when its lines are the recipients' own replies |
| `Threads`, `Mailbox` | the IMAP THREAD parser and conversation pages |
| `Events` | the live folder view: deltas and a client that replays them |
| `Card`, `CardHtml` | the header card of a forwarded message and its removal from replies |
| `ConfigEdit`, `ConfigKeeps`, `ConfigFile`, `ConfigMeans` | the line editor for the configuration file, and what it does stated on the text |
| `Install` | the installer with backups and rollback |

Conventions. Where the source updates objects in place (buckets, limiters, the queue's
rows, the configuration file, the installed files) the model is a class whose methods
state their whole new state, and lemmas speak about the functions those methods are
proved to compute. Where the source loops over local variables the model is a method
with a loop, proved equal to a recursive function. Failures that the source raises are
values (`SieveError`, `LmtpError`, `Raised`, `None`). Clock readings, replies, DNS
answers, SEARCH and FETCH results and Python's own `float` and `int` parsing are
parameters that range over everything.

Where the code and its comments or documentation differ, the model follows the code:

- `claim` is a SELECT followed by one conditional UPDATE per row, not the one statement
  its docstring describes; the UPDATE looks at the status but not at `next_retry`.
- `retry_now` updates any row, though it is described as being for deferred or failed
  ones, and the command line passes it any id. It keeps a message from being sent again
  after a complete transmission if and only if the row is neither SENDING nor SENT
  (`RetryCompletesOnceIff`), and lets two senders hold it if and only if it is SENDING
  (`RetrySplitsIff`); both kinds of row are reached from an empty queue
  (`InFlightAndSent`). The run theorems restrict it to the other rows.
- `release` after an accepted transmission leaves the owners exact and still lets the
  message be sent again (`ReleaseCompletesOnceIff`).
- A failing recipient domain fails the whole message in `_send_direct`, so a retry
  repeats the domains before it. `DeliveredAtMostOnceIff` says for which messages no run
  can do that, from what is known when they are queued.
- The LMTP client reads one line for each reply after LHLO, where RFC 5321 section
  4.2.1 lets a reply have several. `OwnRepliesIff` is the exact condition for every
  recipient to get its own status; `ContinuedRefusalShifts` is a server's answer with
  which a recipient the server accepted is reported refused.
- The live view's documentation says `refresh` asks for the current state; the code
  sends nothing for it (docs/CLIENTS.md:195, src/lightr/api/events.py:260). `ready`
  carries no messages, so a client that lists the folder at another moment than the
  server's snapshot may never be told of a message: `EmitBringsIff` and
  `MissedStaysMissed`.
- A spam score is compared by the digits its text begins with (RFC 4790 section 9.1).
  A negative score begins with none and reads as infinite, so it passes every `gt` test
  with a plain limit and no `lt` test (`NegativeLooksInfinite`); on the other scores
  `LessExactIff` and `GreaterExactIff` are the exact conditions on the limit. SPF, DKIM
  and DMARC conditions ignore their operator.
- A rule's name is written into a comment line unchecked; `NoteIgnoredIff` says which
  names the engine skips.
- A size condition with a negative number compiles, but no engine reads the script:
  `CompileScriptCorrect` states this as the exact condition.
- A bridge whose account is found only after expansion needs a recipient that spells
  the domain otherwise than its name, and then mirrors into an account that is disabled
  or may not receive (`LateBridgeIff`).
- A failure after the rename is not in the installer's report and is not undone
  (`RestoredIff`, `LateFailureStays`).
- A message that vanishes between SEARCH and FETCH makes a full window look short, and
  then a message merely pushed off is reported removed (`RemovedExactly`,
  `PushedOffReported`).

## Model

| member | source | states |
|---|---|---|
| SieveCorrect.CompileScriptCorrect | src/lightr/dovecot/sieve.py:290-311 | for every rule list whose names the engine skips (`NoteIgnoredIff`), every message and the run order: compilation fails exactly when an active rule is not acceptable; otherwise the rendered text, lexed, parsed and run, gives the trace of evaluating the active rules directly in (priority, name) order with ties in input order, with all/any matching and stops - unless a size is negative, when an engine refuses it |
| SieveCorrect.RenderedRun | src/lightr/dovecot/sieve.py:123-132 | the same for rules already in order, through `render` |
| SieveCorrect.RequiresExact | src/lightr/dovecot/sieve.py:266-311 | the collected requirements are exactly the extensions the emitted tests and commands use (RFC 5228 section 3.2) |
| SieveCorrect.CompilesIff | src/lightr/dovecot/sieve.py:298-311 | a script compiles if and only if every rule has conditions and actions, each condition's operator, header name and value fit its field, and each redirect goes to an address |
| SieveCorrect.ConditionCompilesIff | src/lightr/dovecot/sieve.py:145-224 | a condition compiles if and only if: a header field has an operator other than gt and lt, and a name when it is `header`; body has contains or matches; size has gt or lt and an integer; score has gt or lt and a number; attachment, SPF, DKIM and DMARC always |
| SieveCorrect.ActionCompilesIff | src/lightr/dovecot/sieve.py:227-256 | every action compiles, a redirect if and only if its stripped argument is `local@head.tail` with parts that are not empty and hold no `@` and no white space |
| SieveCorrect.RuleCompilesIff | src/lightr/dovecot/sieve.py:259-287 | a rule compiles if and only if it has conditions and actions and each of them compiles |
| SieveCorrect.SortedActiveIsOrder | src/lightr/dovecot/sieve.py:297-299 | the sorted list holds exactly the active rules by priority, then name by code point, then input order, and no other order does |
| SieveCorrect.ConditionCorrect | src/lightr/dovecot/sieve.py:177-224 | every compiled condition evaluates, on every message, to what the condition means |
| SieveCorrect.HeaderValueCorrect | src/lightr/dovecot/sieve.py:145-158 | a compiled header test accepts exactly the values its operator means, for every value with `*`, `?`, backslash or quote in it |
| SieveCorrect.RuleTestCorrect | src/lightr/dovecot/sieve.py:266-277 | the emitted test of a rule holds exactly when all, or any, of its conditions do |
| SieveCorrect.RuleBlockCorrect | src/lightr/dovecot/sieve.py:279-287 | a rule's block performs its actions up to an explicit stop, and ends the run exactly when the rule stops |
| SieveCorrect.RunRules | src/lightr/dovecot/sieve.py:298-311 | running the emitted commands gives the direct evaluation's trace |
| SieveCompile.CompileRule | src/lightr/dovecot/sieve.py:259-287 | the loops over conditions and actions compute the rule's text and requirements, or fail when one of them does |
| SieveCompile.CompileScript | src/lightr/dovecot/sieve.py:290-311 | the loop over the sorted active rules computes the script's body and requirements |
| SieveStrings.LexQuote | src/lightr/dovecot/sieve.py:135-137 | lexing a quoted value before any following text consumes exactly that literal and gives the value back (RFC 5228 section 2.4.2) |
| SieveStrings.StartsWithGlob | src/lightr/dovecot/sieve.py:140-148 | the pattern for `starts_with` matches exactly the strings with that prefix (RFC 5228 section 2.7.1) |
| SieveStrings.EndsWithGlob | src/lightr/dovecot/sieve.py:140-150 | the pattern for `ends_with` matches exactly the strings with that suffix |
| SieveStrings.EscapedPrefix | src/lightr/dovecot/sieve.py:140-142 | an escaped fragment before any pattern stands for exactly itself |
| SieveStrings.LowerEscapeGlob | src/lightr/dovecot/sieve.py:140-142 | escaping commutes with case folding, so escaped patterns stay right under `i;ascii-casemap` |
| SieveScript.LoadLaidOut | src/lightr/dovecot/sieve.py:123-132 | loading a laid-out script gives its commands back when every extension used is declared and no size is negative, and is refused otherwise |
| SieveLayout.LexRender | src/lightr/dovecot/sieve.py:158-224 | the text of well-laid pieces lexes to exactly their tokens, or not at all when a number is negative |
| SieveLayout.ParseTestBack | src/lightr/dovecot/sieve.py:272-277 | a test laid out in nested `allof`, `anyof` and `not` parses back to itself before any tokens |
| SieveLayout.NoteIgnoredIff | src/lightr/dovecot/sieve.py:286-286 | the comment written for a rule is skipped, whatever follows, if and only if every line of its text after the first is blank or a comment |
| SieveEmission.ConditionLaid | src/lightr/dovecot/sieve.py:177-224 | the text emitted for a condition is the layout of a test, and its requirements are what the test uses |
| SieveEmission.CommandText | src/lightr/dovecot/sieve.py:227-249 | the text emitted for an action is the layout of a command, and its requirements are what the command uses |
| SieveEmission.RuleLayout | src/lightr/dovecot/sieve.py:272-287 | the text of a rule, comment and block, is the layout of one `if` command |
| SieveEmission.ScriptText | src/lightr/dovecot/sieve.py:123-132 | the rendered script is the layout of its rules under its require line |
| RuleOrder.SortChosenIsRunOrder | src/lightr/dovecot/sieve.py:297-299 | the sort lists exactly the active rules, each before all that follow it by (priority, name, input order) |
| RuleOrder.RunOrderUnique | src/lightr/dovecot/sieve.py:297-299 | there is only one such order |
| SieveScores.LessExactIff | src/lightr/dovecot/sieve.py:161-174 | on scores that are not negative, `lt` with any limit agrees with comparing the numbers if and only if the limit begins with the digits of its value, or of less than a tenth more |
| SieveScores.GreaterExactIff | src/lightr/dovecot/sieve.py:161-174 | on scores that are not negative, `gt` agrees if and only if the limit begins with the digits of its whole part and lies at most a tenth below the next whole number |
| SieveScores.PlainLimitExactIff | src/lightr/dovecot/sieve.py:161-174 | for limits written as plain decimals, with or without a point: `lt` is exact if and only if the limit has no fraction, `gt` if and only if its fraction is at least nine tenths |
| SieveScores.NegativesNeverExact | src/lightr/mail/headers.py:116-116 | over all scores a message can be stamped with, no limit is compared exactly by either operator |
| SieveScores.NegativeLooksInfinite | src/lightr/mail/headers.py:116-116 | a negative score passes a `gt` test if and only if the limit begins with a digit, and never an `lt` test |
| QueueProtocol.RunKeepsInv | src/lightr/mail/queue.py:155-293 | every interleaving of enqueue, claim's SELECT, its per-row UPDATEs, transmissions, marks, releases, operator retries and purges keeps the invariant |
| QueueProtocol.StepKeepsInv | src/lightr/mail/queue.py:155-293 | each single step keeps it |
| QueueProtocol.NeverHeldTwice | src/lightr/mail/queue.py:178-199 | in every run no message is held by two senders, and the SENDING rows are exactly those held |
| QueueRuns.DeliveredAtMostOnceIff | src/lightr/mail/sender.py:255-281 | no possible run delivers a message to one of its groups twice if and only if it has at most one group (relayed, or one recipient domain), or, where nobody retries it by hand or gives it up after a transmission, its limit allows one attempt |
| QueueRuns.NothingAfterComplete | src/lightr/mail/sender.py:113-138 | in every run nothing is transmitted after a transmission that got through to every group |
| QueueRuns.ManyGroupsRepeat | src/lightr/mail/sender.py:255-281 | for every number of groups from two up and every limit there is a run in which the first group gets the message twice, without an operator when two attempts are allowed |
| QueueProtocol.AttemptsBounded | src/lightr/mail/queue.py:224-255 | attempts never pass the limit plus operator retries, nor transmissions those plus releases after one; claims add up from attempts and releases, and a deferred message has attempts left |
| QueueRuns.LimitReached | src/lightr/mail/queue.py:224-255 | with that bound: a message that every attempt is refused for now is tried exactly as often as its limit says, five times when it says zero, and has then failed |
| QueueProtocol.FinishedStays | src/lightr/mail/queue.py:155-255 | a sent or failed message is left alone by every run without an operator retry of it |
| QueueProtocol.PermanentFailureStays | src/lightr/mail/queue.py:84-91 | a refusal that is not 4xx fails the message for good: no later run claims or sends it |
| QueueRuns.RetrySplitsIff | src/lightr/mail/queue.py:283-293 | applied to any row that can be reached, `retry_now` lets some later run end with two senders holding the message if and only if the row is SENDING |
| QueueRuns.RetryCompletesOnceIff | src/lightr/mail/queue.py:283-293 | applied to any row that can be reached, it keeps every later run to at most one complete transmission if and only if the row is neither SENDING nor SENT, or the message has no deliverable recipient |
| QueueRuns.ReleaseCompletesOnceIff | src/lightr/mail/queue.py:257-268 | releasing a held message always keeps the owners exact, and keeps every later run to at most one complete transmission if and only if none was accepted yet |
| QueueRuns.InFlightAndSent | src/lightr/mail/queue.py:106-222 | SENDING and SENT rows with any number of groups and any limit are reached from an empty queue |
| Queue.OutboundQueue.Enqueue | src/lightr/mail/queue.py:106-153 | refuses an empty recipient list and otherwise adds one pending row |
| Queue.OutboundQueue.TryClaim | src/lightr/mail/queue.py:180-195 | takes the row exactly when it is pending or deferred, changing nothing else |
| Queue.OutboundQueue.Claim | src/lightr/mail/queue.py:155-199 | uninterrupted, takes exactly the selected due rows |
| Queue.OutboundQueue.MarkSent | src/lightr/mail/queue.py:211-222 | sets one row to sent |
| Queue.OutboundQueue.MarkFailed | src/lightr/mail/queue.py:224-255 | counts the attempt, defers or fails, and schedules the retry; None for a missing message |
| Queue.OutboundQueue.Release | src/lightr/mail/queue.py:257-268 | gives back a SENDING row and leaves any other alone |
| Queue.OutboundQueue.RetryNow | src/lightr/mail/queue.py:283-293 | makes the row pending and due now, whatever its status |
| Queue.BackoffGrows | src/lightr/mail/queue.py:93-97 | delays never shrink and stay between a minute and eight hours |
| Queue.DelayFor | src/lightr/mail/queue.py:93-97 | the delay after the first, second, third, fourth and every later failed attempt |
| Sender.SendDirect | src/lightr/mail/sender.py:234-281 | the nested loops deliver to the domains in first-seen order, each by its first accepting host, and stop at the first domain with none, with the code of its last host |
| Sender.DrainOnce | src/lightr/mail/sender.py:113-120 | uninterrupted, every due message is claimed, attempted once and marked by its own result; none is left SENDING and no other row changes |
| Sender.Attempt | src/lightr/mail/sender.py:122-138 | one message's row follows the result of its send |
| Sender.Group | src/lightr/mail/sender.py:247-251 | groups the recipients by lower-cased domain in first-seen order |
| Sender.GroupInOrder | src/lightr/mail/sender.py:247-251 | a domain's recipients are those in it, in the order given |
| Sender.DomainsInOrder | src/lightr/mail/sender.py:247-251 | the domains come in the order they are first seen |
| Sender.DomainMeans | src/lightr/mail/sender.py:250-250 | the domain is what follows the first `@`, in lower case |
| Sender.FateMeans | src/lightr/mail/sender.py:253-281 | success if and only if every recipient domain has an accepting host; after a failure exactly the domains before the first that has none got the message, in order, each for its own recipients and by its first accepting host; the code is 550 without a recipient domain, 451 without a host, and otherwise the last host's, or 451 when it has none that counts |
| Sender.SendIsTransmission | src/lightr/mail/sender.py:122-138 | one direct send and its mark are one transmission and one mark of the shared queue, with a group for each recipient domain: the row becomes what the attempt makes it, and a domain's deliveries grow exactly when it was delivered to |
| Sender.GroupsPartition | src/lightr/mail/sender.py:247-251 | every recipient with a domain is in that domain's group, as often as listed, and in no other |
| Sender.FirstAcceptingIsFirst | src/lightr/mail/sender.py:260-279 | the host used is the first that accepts |
| Sender.UnrecognisedIsTransient | src/lightr/mail/sender.py:299-308 | which exception codes are retried |
| Routing.ExpandLoopsIff | src/lightr/mail/routing.py:245-292 | expansion signals a loop if and only if some alias path returns to an address on it or opens MAX_ALIAS_DEPTH aliases |
| Routing.ExpandReturns | src/lightr/mail/routing.py:245-292 | otherwise it returns exactly the deliverable addresses alias paths reach, each once, in first-visit order; converging aliases are not a loop |
| Routing.ExpandAliases | src/lightr/mail/routing.py:245-292 | the recursive loop computes the expansion |
| RoutingDecision.RefusedIff | src/lightr/mail/routing.py:116-221 | one condition on the tables for each reason to refuse, in their order of precedence: suppressed, not a local domain, account disabled, receiving blocked, alias loop, no such mailbox |
| RoutingDecision.TakenIff | src/lightr/mail/routing.py:116-229 | one condition on the tables for each way to take a message: reply token, mailbox, bridge with or without an account, and forward |
| RoutingDecision.CarriedIff | src/lightr/mail/routing.py:155-229 | the mailbox is the canonical address, or the local part at the domain's name on a late bridge, and none otherwise; the destinations are the expansion exactly when the message is forwarded |
| RoutingDecision.NoAddress | src/lightr/mail/routing.py:118-121 | text without an `@` is no mailbox |
| RoutingDecision.FindsIff | src/lightr/repo.py:190-410 | the lookups give what the tables hold for the address, cut at its first `@`: the domain its host part names, trailing dots aside, the account at exactly that host, and the alias of the local part in that domain |
| RoutingDecision.KindIff | src/lightr/mail/routing.py:264-288 | what an address is to the expansion, on the tables: external, a mailbox, an alias with its destinations, or missing |
| Routing.CanonMeans | src/lightr/mail/routing.py:118-118 | the canonical address is the text between the outer white space, in lower case |
| Routing.ForwardsSettle | src/lightr/mail/routing.py:116-229 | routing an address that routing returned is never ALIAS_FORWARD |
| Routing.ExpandedAreDeliverable | src/lightr/mail/routing.py:264-288 | every returned address is canonical and an account or external |
| Routing.DedupFirstOrder | src/lightr/mail/routing.py:290-292 | dropping repeats keeps first-occurrence order |
| Routing.LateBridgeIff | src/lightr/mail/routing.py:190-221 | with no account at the exact address, mail is mirrored into a mailbox if and only if the address reaches a bridge with destinations, spells its domain otherwise than its name, and an account of that local part is there |
| Routing.CanonIdempotent | src/lightr/mail/routing.py:118-118 | canonical addresses are stable |
| RateLimit.Bucket.constructor | src/lightr/ratelimit.py:48-50 | a new bucket is full |
| RateLimit.Bucket.TakeOne | src/lightr/ratelimit.py:52-62 | refills, then grants and charges one token or refuses; the bucket stays within its bounds |
| RateLimit.TakeLevel | src/lightr/ratelimit.py:52-62 | a take is granted exactly when the level is at least one, and moves it down by exactly one |
| RateLimit.Bucket.Wait | src/lightr/ratelimit.py:64-68 | the advertised wait in whole seconds |
| RateLimit.WindowBound | src/lightr/ratelimit.py:52-62 | in any window of any run with a monotone clock, grants are at most the capacity plus what the window refills, and tokens stay between zero and the capacity |
| RateLimit.GrantsSpendLevel | src/lightr/ratelimit.py:52-62 | over any run, grants and the final level together never exceed the starting level and the refill |
| RateLimit.ClockGoingBack | src/lightr/ratelimit.py:54-55 | with a clock that goes back the bound fails |
| RateLimit.SufficientWait | src/lightr/ratelimit.py:52-68 | after a refusal a take succeeds exactly from the moment the missing token is refilled, and never below capacity one |
| RateLimit.RetryAfterSuffices | src/lightr/ratelimit.py:64-68 | waiting `retry_after` suffices, is at least a second, within a second of the least wait, and at most period/capacity + 1 |
| RateLimit.Limiter.Sweep | src/lightr/ratelimit.py:117-122 | the loop drops exactly the idle buckets |
| RateLimit.Limiter.Lookup | src/lightr/ratelimit.py:100-106 | finds or makes the key's bucket, sweeping first when the table is full |
| RateLimit.LookupDropsIdle | src/lightr/ratelimit.py:100-122 | a full table drops exactly its idle keys before it takes a new one, and nothing is dropped otherwise |
| RateLimit.Limiter.Allow | src/lightr/ratelimit.py:108-109 | answers and charges as the key's bucket does |
| RateLimit.Limiter.Forget | src/lightr/ratelimit.py:114-115 | drops one key |
| RateLimit.SweepingIsInvisible | src/lightr/ratelimit.py:100-122 | on every run with a monotone clock, over any keys, the sweeping limiter answers as one that never drops a bucket |
| RateLimit.LimiterNeverForgets | src/lightr/ratelimit.py:95-122 | the same from an empty table |
| RateLimit.WaitsAgree | src/lightr/ratelimit.py:111-122 | once a run ends by asking for a key, the sweeping limiter and one that never drops a bucket advertise the same wait for it, whatever was dropped before |
| RateLimit.IdleIsFull | src/lightr/ratelimit.py:117-122 | a bucket idle for longer than its period has refilled to capacity |
| RateLimit.KeyLimiter.Check | src/lightr/ratelimit.py:140-158 | consults the minute table, then the day table, as the source does |
| RateLimit.CheckIff | src/lightr/ratelimit.py:140-158 | a check proceeds if and only if each positive limit has a token for the key; a limit of zero or less never refuses and is never charged, the day is charged only when the minute agrees, and other keys are left alone |
| RateLimit.CheckWaits | src/lightr/ratelimit.py:140-158 | a refused check is told at least a second, and after that wait, with no other request of the key, the table that refused agrees |
| RateLimit.KeyLimiter.Forget | src/lightr/ratelimit.py:160-162 | drops one key from both tables |
| RateLimit.KeyBounds | src/lightr/ratelimit.py:140-158 | whatever other keys do, a key with fixed limits meets its minute bound and its day bound together over any run |
| Mbox.EscapeRoundTrip | src/lightr/mailtransfer.py:215-227 | unescaping undoes escaping for all bytes, and no escaped line starts with `From ` |
| Mbox.EscapeExact | src/lightr/mailtransfer.py:215-219 | escaping adds one `>` to exactly the lines that are `From ` after any number of them, and changes no other line |
| Mbox.UnescapeExact | src/lightr/mailtransfer.py:222-227 | unescaping takes one `>` from exactly the lines that are `From ` after at least one |
| Mbox.StreamShape | src/lightr/mailtransfer.py:230-239 | in a written stream every line that starts `From ` is first or follows a blank line, and the stream ends in one |
| Mbox.MboxRoundTrip | src/lightr/mailtransfer.py:230-239 | for any messages, cutting the written stream at `From ` lines and unescaping gives the same messages in order, up to trailing newlines |
| Mbox.StripCommutes | src/lightr/mailtransfer.py:235-239 | stripping trailing newlines commutes with escaping |
| Lmtp.DataTransparent | src/lightr/dovecot/lmtp.py:138-140 | for every payload, a receiver that stops at the first lone dot and un-stuffs recovers exactly the payload's lines and stops exactly at the end marker, whatever follows (RFC 5321 section 4.5.2) |
| Lmtp.NormaliseSplits | src/lightr/dovecot/lmtp.py:226-234 | the two replacements and the split cut the payload at every CR, LF and CRLF |
| Lmtp.Transaction | src/lightr/dovecot/lmtp.py:108-148 | returns exactly when the reply stream completes; then every recipient has exactly one status, from the line read for it, and the lines after DATA go in order to the accepted; what has been sent, wherever the transaction ends, is exactly what the replies allow |
| Lmtp.PayloadAfter354 | src/lightr/dovecot/lmtp.py:131-140 | the message is sent only when somebody was accepted and DATA was answered with 354 |
| Lmtp.LhloIsOneReply | src/lightr/dovecot/lmtp.py:200-211 | the LHLO answer is one reply, taken if and only if every line of it says 250 |
| Lmtp.SplitInOrder | src/lightr/dovecot/lmtp.py:55-61 | the failed and the delivered keep the order of the statuses |
| Lmtp.OwnRepliesIff | src/lightr/dovecot/lmtp.py:190-198 | when a transaction completes, every recipient's status is that of its own reply (RFC 5321 section 4.2.1, RFC 2033 section 4.2) if and only if neither the greeting nor any line from the answer to MAIL to the last status says that its reply goes on |
| Lmtp.ContinuedRefusalShifts | src/lightr/dovecot/lmtp.py:190-198 | a refusal of two lines is taken for two recipients, and the second is reported refused though its own reply accepts it |
| Lmtp.ReadMultiline | src/lightr/dovecot/lmtp.py:200-211 | reads exactly the LHLO answer, or fails when it is refused or breaks off |
| Lmtp.CollectStatuses | src/lightr/dovecot/lmtp.py:142-146 | one line for each accepted recipient, in order |
| Lmtp.DeliveredAndFailed | src/lightr/dovecot/lmtp.py:55-61 | delivered and failed split the statuses: every recipient is in one of them |
| Lmtp.FailedAreNotOk | src/lightr/dovecot/lmtp.py:59-61 | the failed statuses are exactly those that are not 2xx |
| Threads.ParseThreads | src/lightr/dovecot/aioimap.py:489-527 | the loops over the lines and characters of a response compute what the lines read as |
| Threads.ResponseRead | src/lightr/dovecot/aioimap.py:489-527 | for a whole response, whatever commentary stands between the lines that carry forests, the conversations read are those of the forests, in order |
| Threads.OneResponse | src/lightr/dovecot/aioimap.py:489-527 | any commentary before and after one line that carries a forest: exactly its conversations |
| Threads.PrintedCarries | src/lightr/dovecot/aioimap.py:489-504 | what a server prints for a forest, with or without the response's name, is a line that carries it |
| Threads.CommentarySkipped | src/lightr/dovecot/aioimap.py:499-504 | a line that holds no text opening with `(`, the response's name in any case aside, leaves the threads as they were |
| Threads.LineIff | src/lightr/dovecot/aioimap.py:499-504 | the text read from a line is exactly what stands between its outer white space, after the response's name and a gap if there is one, when that opens with `(` |
| Threads.ParseText | src/lightr/dovecot/aioimap.py:506-526 | the character loop computes the scan |
| Threads.ParsePrinted | src/lightr/dovecot/aioimap.py:489-527 | parsing what a server prints for any forest (RFC 5256 section 4) gives one list per conversation, its UIDs in preorder |
| Threads.NumbersKept | src/lightr/dovecot/aioimap.py:489-527 | whatever a line holds, well nested or not, no number is lost, doubled or moved, and no conversation is empty |
| Mailbox.ListThreads | src/lightr/dovecot/mailbox.py:380-423 | the loop shows the conversations of one window with the messages FETCH still found |
| Mailbox.PageShowsFetched | src/lightr/dovecot/mailbox.py:410-423 | each conversation shown has messages, one for each of its UIDs in their order, all from what FETCH answered |
| Mailbox.PagesListEachOnce | src/lightr/dovecot/mailbox.py:399-423 | successive pages of any size list every conversation once, never split, by newest message descending, less vanished messages |
| Mailbox.OrderedExact | src/lightr/dovecot/mailbox.py:400-404 | the order shown is descending and holds each conversation, sorted, as often as given |
| Mailbox.OrderedStable | src/lightr/dovecot/mailbox.py:400-404 | conversations with the same newest message keep the order they came in |
| Mailbox.SortedSorts | src/lightr/dovecot/mailbox.py:400-404 | each conversation is sorted and keeps its messages |
| Mailbox.PrintedPages | src/lightr/dovecot/mailbox.py:399-423 | from a whole THREAD response, commentary and all, to the pages in one statement |
| Events.Loop | src/lightr/api/events.py:180-224 | the loop over pushes, folder switches and refreshes computes the frames and the window of the run, which never exceeds WINDOW |
| Events.EmitTells | src/lightr/api/events.py:283-315 | no update when the windows are equal, otherwise one that names the folder: as new exactly the UIDs the old window had not, as changed exactly those in both whose flags differ, both with the new flags, and as removed exactly those gone that are not older than a full window |
| Events.TurnTells | src/lightr/api/events.py:180-224 | what each turn of a run sends and keeps: one such update for the folder watched, or one `ready` on a switch, or nothing |
| Events.UpdatesNameWatched | src/lightr/api/events.py:180-224 | over any run every update names the folder the last `ready` named, or the start folder, and that is the one watched |
| Events.ListingMeans | src/lightr/api/events.py:279-280 | the window is the WINDOW highest UIDs found, as far as they are still there, with their flags |
| Events.EmitBringsIff | src/lightr/api/events.py:283-315 | for a client with any view at all, one look brings it to the server's window if and only if it has what the two looks share unchanged and nothing outside the new window that the update does not take out |
| Events.InStepIff | src/lightr/api/events.py:180-224 | over any run, from any view and any listings of its own at the switches, a client is in step after a turn exactly when a look brings it there, a switch finds its listing equal to the snapshot, or it was already |
| Events.InStepStays | src/lightr/api/events.py:180-224 | once in step, a client stays in step to the end of the run if its listings at later switches are the server's snapshots |
| Events.MissedStaysMissed | src/lightr/api/events.py:161-169 | a message the client's listing missed is not sent to it at any later look while the server sees it with the same flags |
| Events.ListedTooEarly | src/lightr/api/events.py:161-169 | a concrete client that is told of message 3 and never of message 2 |
| Events.ApplyGivesAfter | src/lightr/api/events.py:283-315 | whatever happened between two looks, applying the update and keeping the WINDOW highest UIDs gives the new window |
| Events.SentIffChanged | src/lightr/api/events.py:305-314 | an update is sent exactly when the window changed |
| Events.WindowIsHighest | src/lightr/dovecot/mailbox.py:370-373 | the reversed slice is exactly the WINDOW highest UIDs |
| Events.RemovedIsGone | src/lightr/api/events.py:298-303 | when SEARCH and FETCH see the same folder, a UID reported removed is really gone, never merely pushed off |
| Events.RemovedExactly | src/lightr/api/events.py:298-303 | in general a reported UID is still there if and only if it was pushed off and a message of the new window vanished between the two |
| Events.PushedOffReported | src/lightr/api/events.py:298-303 | a concrete look that reports such a UID |
| Card.StripTextExact | src/lightr/mail/replies.py:392-421 | for any text above, quote prefix, header fields, line ending and text below, removal takes out exactly the quoted card and its blank line |
| Card.StripUndoesWrap | src/lightr/mail/replies.py:236-244 | stripping a forwarded copy's text gives the original text |
| Card.CardFound | src/lightr/mail/replies.py:410-421 | by lines: removal takes the card from its first line to its last, the tail a client wrapped off a legacy card's last line, the blank line after that, and nothing else |
| Card.UnchangedIff | src/lightr/mail/replies.py:400-409 | a text is left as it is if and only if no line starts a card or none after the first that does ends one |
| Card.BareMeans | src/lightr/mail/replies.py:396-398 | the text a line is judged by is the line without its quoting, the stars on both sides and the white space about them |
| Card.LookMeans | src/lightr/mail/replies.py:400-420 | on that text, which lines start a card, end one, end in a dot or are blank, for the current and the legacy cards |
| Card.WrapShows | src/lightr/mail/replies.py:236-244 | the copy's lines are the marker, the sender, the recipients, the copies and the date when there are any, the hint, a blank line, and the original's |
| CardHtml.StripCardHtml | src/lightr/mail/replies.py:424-437 | the loop over table tags finds where the card's own table closes |
| CardHtml.StripExact | src/lightr/mail/replies.py:424-437 | for any document before the card that lacks the marker and any after it, removal takes out exactly the card's balanced table, whatever tables are nested in it |
| CardHtml.TableExact | src/lightr/mail/replies.py:432-436 | the depth count stops just after the table's own closing tag |
| CardHtml.CardIsCard | src/lightr/mail/replies.py:252-274 | the card a forwarded copy opens with is found whole, whatever the sender put in the headers |
| CardHtml.CardShows | src/lightr/mail/replies.py:252-274 | the card shows the marker, the initials, the name, the address unless it is the name, the other fields and the hint, in that order |
| CardHtml.UnescapeEscape | src/lightr/mail/replies.py:252-274 | a header is shown as it was written, whatever is in it |
| CardHtml.StripUndoesWrap | src/lightr/mail/replies.py:275-282 | stripping a forwarded document gives the original, wherever the card went in |
| CardHtml.UnchangedIff | src/lightr/mail/replies.py:424-437 | a document is left as it is if and only if it has no marker, no table opens before the first one, or the last that does never closes |
| ConfigEdit.SetLines | src/lightr/configtemplate.py:203-239 | the loop over the requested settings computes the edited lines and the settings reported as changed |
| ConfigEdit.FindScalar | src/lightr/configtemplate.py:252-257 | finds the first line that is that scalar |
| ConfigEdit.FindBlock | src/lightr/configtemplate.py:260-265 | finds the first line that is that header |
| ConfigEdit.FindSetting | src/lightr/configtemplate.py:268-278 | finds the setting inside its own block or nothing |
| ConfigFile.RequestedRead | src/lightr/configtemplate.py:205-239 | after a run every requested setting reads back as requested under the code's own finders |
| ConfigMeans.FindIff | src/lightr/configtemplate.py:252-278 | the finders find exactly the first line with that scalar's name and a value, or the first line with that setting's name inside the first block of its name |
| ConfigMeans.EditMeans | src/lightr/configtemplate.py:205-239 | a setting that is there is rewritten in its line; a new scalar goes first, a new setting right under its block's header, and a new block last, after a blank line when the file does not end in one |
| ConfigMeans.RunHolds | src/lightr/configtemplate.py:205-239 | after a run each requested setting is held by the line `name: value`, indented by two inside a block |
| ConfigMeans.ReportMeans | src/lightr/configtemplate.py:203-239 | a run reports exactly the settings that did not hold what was asked for, in the order asked, by their dotted names |
| ConfigMeans.WrittenMeans | src/lightr/configtemplate.py:241-245 | the file is left exactly as it is when every setting holds what was asked for, and otherwise becomes the edited lines, each ended by a line feed |
| ConfigFile.OthersRead | src/lightr/configtemplate.py:205-239 | every other setting of any block reads as before |
| ConfigFile.ChangedExactly | src/lightr/configtemplate.py:203-239 | a run reports exactly the settings that did not read as requested before it |
| ConfigFile.LinesKept | src/lightr/configtemplate.py:205-239 | every line that held no requested setting is still there unchanged |
| ConfigFile.OrderKept | src/lightr/configtemplate.py:205-239 | whatever lines a run puts in, the old lines keep their order |
| ConfigFile.HeadersKept | src/lightr/configtemplate.py:229-238 | no block gets a second header |
| ConfigFile.SecondRun | src/lightr/configtemplate.py:241-243 | a second run reports nothing and leaves the file's text as it is |
| ConfigFile.WrittenLines | src/lightr/configtemplate.py:202-245 | the text written splits back into exactly the edited lines |
| ConfigFile.File.SetValues | src/lightr/configtemplate.py:180-243 | the file is written exactly when a setting changed |
| Install.FileSystem.WriteAtomic | src/lightr/dovecot/manage.py:113-145 | an equal file is untouched; otherwise the old one is backed up and replaced, and each point of failure leaves what it leaves |
| Install.FileSystem.Rollback | src/lightr/dovecot/manage.py:533-544 | undoes the report from the last entry to the first |
| Install.FileSystem.InstallAll | src/lightr/dovecot/manage.py:256-303 | a rejected configuration is undone completely; a failure is undone if and only if it did not come after the rename; nothing is written when nothing differs; otherwise every target holds its content and what it replaced is in its backup; the report names each target in order with what was done and its backup |
| Install.RollbackRestores | src/lightr/dovecot/manage.py:533-544 | rolling back a whole run restores every file, backups aside |
| Install.RestoredIff | src/lightr/dovecot/manage.py:267-294 | after a failure and its rollback every file is as it was if and only if the failure did not come after the rename |
| Install.LateFailureStays | src/lightr/dovecot/manage.py:135-145 | a concrete failure that leaves a new file behind |
| Install.NothingDiffers | src/lightr/dovecot/manage.py:121-122 | a run where nothing differs changes nothing |
| Install.AllHold | src/lightr/dovecot/manage.py:121-145 | after a whole run every target holds its content, backups hold what was replaced, nothing else changed |

## Left out

- Sockets, SMTP, DNS, subprocesses, the database driver and asyncio scheduling: their answers are parameters; each database update is one atomic step.
- SieveCorrect.CompileScriptCorrect: names with a later line that is neither blank nor a comment are left out, because that line is then script text of the name's own (`NoteIgnoredIff`).
- The Sieve engine model covers the language the compiler can emit: not number suffixes, multi-line strings, bracket comments or `elsif`.
- Case folding and white space are ASCII; digits are ASCII. Python folds and strips by Unicode.
- Numbers in rate limits are exact reals, so floating-point rounding is not modelled. A KeyLimiter whose limits change between requests starts a new bucket and is outside `KeyBounds`.
- RateLimit.SweepingIsInvisible: assumes a clock that never goes back, as `time.monotonic` promises; `ClockGoingBack` shows why.
- QueueProtocol.NeverHeldTwice: `retry_now` is restricted to rows that are neither SENDING nor SENT and `release` to the holder before a transmission is accepted; `RetrySplitsIff`, `RetryCompletesOnceIff` and `ReleaseCompletesOnceIff` say what the unrestricted updates do. `purge` is restricted to sent and failed rows.
- A sender that stops between a transmission and the row update leaves the row SENDING; nothing in the queue reclaims it, and the model has no step for it.
- Purging keeps no age limit in the model: any finished row may go at any time.
- Domain lookup by UUID and lookups of suspended domains are not part of the routing directory; `route` leaves out the identifiers it copies into its result.
- Mbox.MboxRoundTrip: messages come back with their trailing newlines made one, which is all the format keeps; the separator line's sender and date are any line starting `From `, and the reader is the one Python's `mailbox.mbox` documents, on files with LF line ends.
- Importing messages into folders and counting them (`import_messages`, `TransferReport`) would add easy members.
- LMTP timeouts and the connection itself: a reply stream that ends early stands for both.
- Mailbox.list sorts what FETCH returned by position; the live view only needs which UIDs and flags are in it, so the model keeps those as a map.
- The client of the live view is a client that applies each update and keeps the WINDOW highest UIDs; what it lists over HTTP is any view at all.
- Scores that are infinite or not a number are not modelled.
- RateLimit.WaitsAgree: between two requests for a key the advertised waits may differ, because `retry_after` reads the stored tokens and a dropped bucket comes back full.
- Card.StripTextExact: covers the card as it is written now, each line quoted by spaces and `>`; of the legacy card, whose layout the source no longer writes, only the removal of its wrapped last line is stated (`CardFound`).
- CardHtml.StripExact: the card may hold text, comments, tags that stand alone and nested elements; a comment with `<` in it and an attribute value with an angle bracket are left out.
- The card's style attributes are any attributes without angle brackets (and without a capital F before the caption, as the source's have); building the MIME message around the card is not modelled.
- YAML rendering is any function to one non-empty stripped line; a value long enough for the YAML library to wrap is outside the model. What YAML makes of the edited lines is not modelled: the theorems read the file with the code's own finders.
- File modes, ownership, fsync and the removal of retired files, which rollback does not undo; backup and temporary names are assumed unused. Failures inside the rollback itself are not modelled.
- Bucket objects in the limiter tables are values in a map, so aliasing of one bucket by two callers is not modelled.
