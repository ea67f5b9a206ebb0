# Email triage agent: the polling-and-matching engine

This project models the core of an automated email triage agent in Dafny. The agent checks
an inbox for unseen messages. It matches each message's text against keyword rules and
sends the canned reply of a matching rule. After a successful send it flags the message
`\Seen` (the IMAP system flag of section 2.3.2 of RFC 3501). The model covers:

- the rate-limit guard in front of every check;
- the settings check;
- the mailbox session, which is always closed once opened;
- the per-message rule loop, with its send-then-flag ordering and first-success break;
- the counters a check returns;
- the two rule-list edits of the control plane: save (append with a fresh id) and delete
  (filter out by id).

One check is the pure function `Engine.CheckEmails`. It takes:

- the stored time of the last check;
- the clock reading `now`;
- a snapshot of the stored settings and rules;
- a `Gateway` value of oracles. The oracles stand for the IMAP connection, open-box and
  search steps, the MIME parser (`parse`), and whether each reply send (`send(msg, rule)`)
  and each flag (`flag(msg, rule)`) resolves.

It returns the new time of the last check, a `CycleResult`, and a trace of the effects in
order: `Open`, `Send(msg, rule, mail)`, `Flag(msg, uid)`, `Close`. Attempts that fail leave
no event. The ordering properties are lemmas over that trace.

Modules:

- `Text`: JavaScript truthiness, ASCII `toLowerCase`, `includes`, integer rendering and `parseInt`.
- `Rules`: rules, keyword matching and the first-match selector.
- `RuleStore`: the settings document and the save and delete edits.
- `Guard`: the admission window.
- `Engine`: one check.
- `EngineFacts`: the rule loop and the message loop.
- `CycleFacts`: whole-check trace properties and a worked example.
- `Schedule`: successive checks threading the time of the last check.

Behaviour of the code worth knowing:

- A reply that went out is counted at once. If flagging the message then fails, the error
  is caught by the same handler as a send error, so the loop moves on to the next rule.
  A message can therefore get a second reply in one check. `EngineFacts.FailedFlagAllowsSecondReply`
  shows this, and `EngineFacts.TryAtMostOneReply` proves "at most one reply" only when
  flags do not fail.
- A failed send moves on to the next rule for the same message, not to the next message.
- A connection that opens but whose open-box or search step fails still produces `Open`
  and then `Close`. Only a failed connect has no effects.
- The empty-settings message is "Email configuration missing". An empty inbox returns its
  own "No new emails" result, which the code reports with `emailCount` and `responseCount` 0. The model
  encodes it as the field-less `NoNewEmails`, whose trace is `Open`, `Close`, so nothing is sent.
- Keywords are not normalised or checked when stored. An empty keyword (for example from a
  trailing comma in the rule form) matches every body.

## Model

| member | source | states |
|---|---|---|
| Engine.CheckEmails | server.js:16-136 | A check is skipped iff `now - lastCheckTime < 10000`. A skip leaves the time and the trace untouched. Any admitted check stamps `now`, even one that later fails. Missing or empty email or password gives `ConfigMissing` with no effects. The trace is non-empty iff the connect succeeded, and then it starts with `Open`, ends with `Close` and has only message events between. A check that does not reach the message loop (failed open-box or search, empty inbox) has the trace `Open`, `Close` or none, so it sends and flags nothing. `NoNewEmails` iff the search listed nothing. `Processed` counts every listed message, and its response count equals the number of replies in the trace. `success` is true iff the check was skipped or the search returned a listing. Each result carries the source's message: "Skipped check - too soon", "Email configuration missing", "No new emails", "Processed n emails, sent k responses" with the two counts, or the reason of the first session step that failed. |
| Engine.RunSession | server.js:46-136 | Inside the try/finally: a failed connect has no effect. Every other path, including failed open-box, failed search, an empty inbox and the normal return, ends with `Close`. Every path except the message loop has exactly the trace `Open`, `Close` (or none when the connect failed). The result fails iff some session step failed, and then it carries that first failing step's reason. |
| Engine.ProcessFrom | server.js:78-121 | The message loop causes only reply and flag events of listed messages. The `responsesSent` counter equals the number of replies sent. |
| Engine.ProcessMessage | server.js:81-120 | A message without a non-empty full-body part, or one the parser rejects, causes nothing. Otherwise its effects are replies and flags of that message only, and the counter equals its replies. |
| Engine.TryRules | server.js:94-117 | The rule loop's counter is incremented exactly once for each reply that goes out, including replies whose flag then fails. |
| Engine.TryRulesOwnMessage | server.js:94-117 | The rule loop for message `m` produces only replies to `m` and flags of `m`. |
| Engine.FindPartFirst | server.js:83 | `parts.find(p => p.which === '')` returns the first part with that name, and returns nothing iff no part has it. |
| Rules.SomeKeywordIff | server.js:95-97 | `keywords.some(...)` holds iff some keyword, lower-cased, is a substring of the lower-cased body. |
| Rules.EmptyKeywordMatchesAll | server.js:95-97 | An empty keyword makes its rule match every body. |
| Rules.MatchesIgnoresCase | server.js:95-97 | Matching gives the same answer on the lower-cased body and with lower-cased keywords (ASCII letters). |
| Rules.InvoiceExample | server.js:95-97 | The keyword "Invoice" matches a body containing "INVOICE". |
| Rules.FirstMatchFrom | server.js:94-99 | The selector returns the first matching rule in declaration order, and nothing iff no rule matches. |
| Text.IncludesIsSubstring | server.js:96 | `s.includes(t)` holds iff `t` occurs at some index of `s`; the empty string is included in every string. |
| Text.ParseIntRoundTrip | server.js:199 | `parseInt` of an integer's decimal rendering gives back that integer, so a rule id placed in the delete path selects the same id. |
| EngineFacts.TrySendsSound | server.js:94-116 | Every reply sent is for a rule that matches, whose send resolves and for which no earlier rule both sent and flagged. It carries the rule's subject and response, from the configured address to the message's sender. |
| EngineFacts.TrySendsComplete | server.js:94-116 | Every matching rule whose send resolves gets its reply sent, unless an earlier rule both sent and flagged. |
| EngineFacts.TryRepliesBeforeLast | server.js:99-116 | In one message's rule loop every event except possibly the last is a reply. |
| EngineFacts.TryFlagShape | server.js:107-112 | A final flag names the message's uid and directly follows the reply of a rule whose flag resolves. |
| EngineFacts.TryFlagIff | server.js:99-116 | A message is flagged iff some rule matches, its send resolves and its flag resolves. |
| EngineFacts.TrySendsOrdered | server.js:94-112 | The replies to one message go out in the rules' declaration order. |
| EngineFacts.TryNothingDelivered | server.js:94-117 | When no rule both matches and gets its reply out, the loop sends nothing and flags nothing. |
| EngineFacts.TryNoEffect | server.js:91-117 | No reply and no flag when no rule matches, when every send fails, or when the message has no sender. |
| EngineFacts.TryFirstMatchWins | server.js:94-112 | When the first matching rule's send and flag both resolve, the loop's effects are exactly that rule's reply followed by the flag. |
| EngineFacts.TryAtMostOneReply | server.js:101-116 | If flagging never fails, a message gets at most one reply. |
| EngineFacts.FailedFlagAllowsSecondReply | server.js:107-115 | Two matching rules, both sends resolve, the first flag fails: two replies go out, then the flag. |
| EngineFacts.MessageFlagShape | server.js:81-120 | In one message's events each flag directly follows a reply to that message whose flag resolves. |
| EngineFacts.ProcessFromIsolation | server.js:80-121 | The message loop's events for message `m` are exactly those of processing `m` alone, whatever the other messages are. |
| EngineFacts.ProcessFromFlagFollowsSend | server.js:80-121 | Across the message loop each flag directly follows a reply to the same message and names that message's uid. |
| EngineFacts.ProcessFromOrdered | server.js:80 | Message events follow the search result's listing order. |
| CycleFacts.CycleFlagFollowsSend | server.js:99-136 | On every path of a check, each flag directly follows a reply to the same message whose flag resolves. |
| CycleFacts.CycleInListingOrder | server.js:80-121 | Between `Open` and `Close`, events follow the listing order. |
| CycleFacts.CycleIsolation | server.js:80-121 | A check's events for message `m` are those of processing `m` alone; messages not listed get none. |
| CycleFacts.CycleSends | server.js:89-112 | A check sends rule `r`'s reply to message `m` iff: `m` was listed and parsed; `r` matches its body (text, else html, else empty); the send resolves; and no earlier rule both sent and flagged. |
| CycleFacts.CycleFlags | server.js:107-112 | A listed message is flagged iff it parsed and some rule sent its reply and flagged it. |
| CycleFacts.CycleUntouched | server.js:83-120 | A listed message with no full body, a parse error, no matching rule, no sender or only failing sends gets neither reply nor flag. |
| CycleFacts.RefundMessage | server.js:89-112 | In the worked example the message gets exactly the refund reply to a@x.com, then its flag. |
| CycleFacts.RefundScenario | server.js:78-128 | The worked example check returns `Processed(1, 1)` with trace `Open`, the reply, the flag, `Close`. |
| Schedule.AdmittedCallsSpaced | server.js:13-25 | Over any sequence of calls, every admitted check begins at least 10000 ms after the initial last-check time and at least 10000 ms after every earlier admitted check. This holds even if the clock moves backwards. |
| Schedule.FirstCallFromStartRuns | server.js:13-25 | Starting from the initial `lastCheckTime` of 0, a first call at a clock reading of at least 10000 runs and stamps its time, and a second call within 10000 ms of it is skipped. |
| Schedule.SecondCallInWindowSkipped | server.js:17-25 | A second call within 10000 ms of an admitted one is skipped, with no effect, and keeps the first call's time. |
| RuleStore.SaveRule | server.js:188 | Saving appends exactly one rule at the end, with the request time as id and the draft's keywords, subject and response. Earlier rules and the settings are unchanged. |
| RuleStore.DeleteRule | server.js:198-199 | Deleting keeps exactly the rules whose id differs from `parseInt` of the path parameter (all of them when that is NaN), in original order. One rule is dropped per occurrence of the id, and the settings are unchanged. |
| RuleStore.RemoveIdMembers | server.js:199 | A rule survives the filter iff it does not carry the target id. |
| RuleStore.RemoveIdCount | server.js:199 | The filter drops one rule per occurrence of the target id. |
| RuleStore.RemoveIdSubsequence | server.js:199 | The surviving rules are a subsequence of the original list. |
| RuleStore.RemoveIdAppend | server.js:199 | Filtering a concatenation is the concatenation of the filtered parts. |
| RuleStore.RemoveAbsentId | server.js:199 | Deleting an id no rule carries changes nothing. |
| RuleStore.RemoveIdIdempotent | server.js:199 | Deleting the same id twice is the same as deleting it once. |
| RuleStore.DeleteUndoesSave | server.js:188-199 | Deleting, by its rendered id, a rule just saved with an id not yet in use restores the store. |

## Left out

- The IMAP, SMTP and MIME libraries are foreign code. They are oracles in `Gateway`: connect, open-box and search outcomes, a `parse` function, and `send`/`flag` outcomes indexed by (message index, rule index). Each pair is tried at most once per check.
- `nodemailer.createTransport` is assumed not to throw. The transporter's settings (host, port, TLS, auth timeout) are not modelled.
- `Date.now()` is passed in as `now` (for checks) or as the id (for saved rules).
- `readData`, `writeData` and `initializeDataStorage` are file I/O. The store is an in-memory `Store` value. A failed read yields `{emailConfig: {}, rules: []}`, which is `Store(EmailConfig(None, None), [])`.
- The save-config and get-data handlers and the HTTP status mapping (including 429 on a skip) are transport plumbing. The save-config handler only replaces the settings wholesale.
- public/script.js is not part of this model. It holds the timer, the start/stop state, DOM rendering and keyword splitting.
- Concurrency between timer ticks and manual triggers is not modelled. Calls to the guard are sequential (`Schedule.RunCalls`).
- `Text.Lower`: only ASCII letters are lowered. JavaScript's full Unicode case mapping is not modelled.
- `Text.IntToString`, `Text.ParseInt`, `Text.ParseIntRoundTrip`, `RuleStore.DeleteUndoesSave`: JavaScript numbers are doubles, but the model uses unbounded integers. Rule ids are `Date.now()` stamps, far below 2^53, so they are exact. The rounding of `parseInt` beyond 2^53 and the exponent form `${x}` uses from 1e21 up are not modelled.
- `Text.ParseInt`: models an optional sign followed by leading decimal digits. Leading whitespace trimming and the `0x` radix prefix are not modelled.
- Malformed stored data is assumed absent. For example, `keywords` missing or not a list of strings would throw inside the message's try and end that message's rule loop. A rule's subject and response are taken as strings.
- A present `from` header whose `.text` is undefined is not distinguished from a send that fails. A missing `from` header is modelled: the send attempt fails before anything is sent.
- `result.attributes.uid` is assumed present. Message bodies are strings, not buffers.
- Console logging has no effect on the model.
