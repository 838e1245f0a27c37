# Automatic Email Replier: a Dafny model of its core

The Automatic Email Replier is a Node.js service for a Gmail account. Once the
user has signed in, it makes sure the account has two labels, `Auto-Reply` and
`Replied`. It then polls the account at a fixed interval. On each tick it does
one of two things:

- If the account itself sent mail in the last hour, it tags those threads
  `Replied`.
- Otherwise it answers each inbound message of the last hour that is not part
  of a reply chain. The answer is a fixed vacation reply. It then moves the
  answered thread from `INBOX` to `Auto-Reply`.

This project models the two functions that do this work, `createLabel` and
`getMails` in `index.js`, together with the random choice of the polling
interval. It proves properties of the model.

Modules, one per file:

- `Wrappers` (`wrappers.dfy`): the `Option` type.
- `MailTypes` (`mail_types.dfy`): labels, header fields, message references, fetched messages and outgoing replies.
- `Headers` (`headers.dfy`): the `some`/`find` lookups on a message's header list.
- `MessageFormat` (`message_format.dfy`):
  - the reply text that `getMails` builds;
  - a renderer and a parser for RFC 5322 header blocks, with a proof that parsing undoes rendering;
  - the RFC 2045 section 2.7 "7bit" conditions on the reply body.
- `LabelStore` (`label_store.dfy`):
  - `createLabel` as a scan loop plus a create decision;
  - which label lists give `getMails` the array layout it reads;
  - a corrected bootstrap (see Findings).
- `PollTick` (`poll_tick.dfy`):
  - `getMails` as a method on a `Mailbox` object that holds every thread's label set and the replies sent so far;
  - the Gmail calls as a `MailApi` value whose fields are functions;
  - one method per `forEach` callback;
  - specification folds and lemmas about what a tick does.
- `Scheduler` (`scheduler.dfy`): the polling interval.

The inputs are modelled as follows:

- The Gmail service's answers are inputs: the message lists per query, the fetched messages, and whether each send and modify call succeeds.
- Base64 encoding is the `encode` field of `MailApi`. It stays abstract.
- The random draw `Math.random()` is a real parameter `u` in [0, 1).
- A label the service creates gets its id as a parameter.

## Model

| member | source | states |
|---|---|---|
| Headers.HasReplied | index.js:160-162 | `headers.some(h => h.name === "In-Reply-To")`; PollTick.ReplyDecision and InReplyToSkipped state its effect on the reply |
| Headers.Lookup | index.js:172-179 | `find(h => h.name === n)`: a value exists exactly when some field has that exact name, and it is the value of the first such field |
| MessageFormat.ReplyText | index.js:171-182 | the text handed to `Buffer.from`; MessageFormat.ReplyTextRendered, ReplyReadsBack and ReplyFieldValues characterise it |
| MessageFormat.ReplyTextRendered | index.js:170-183 | the raw reply is a header block of To, Subject `Re: <subject>`, Content-Type and Content-Transfer-Encoding fields, followed by the vacation sentence and CRLF as the body |
| MessageFormat.ReplyReadsBack | index.js:170-183 | when the From and Subject values contain no CR or LF, parsing the reply gives back exactly its four fields and its body |
| MessageFormat.ReplyFieldValues | index.js:170-183 | the reply's To field is the original From value, its Subject is `Re: ` plus the original subject, and its transfer encoding is `7bit` |
| MessageFormat.ParseRender | index.js:170-183 | for any well-formed header fields and any body, parsing the rendered message returns those fields and that body |
| MessageFormat.ReplyFieldsWellFormed | index.js:170-181 | the four reply fields have valid field names, and valid values whenever From and Subject have no line breaks |
| MessageFormat.BodyIsSevenBit | index.js:181-183 | the reply body meets the 7bit conditions it declares: US-ASCII without NUL, CR and LF only as a CRLF pair, and lines of at most 998 characters; its sentence is printable US-ASCII |
| MessageFormat.VacationBodyPrintable | index.js:182 | the vacation sentence consists of printable US-ASCII characters only |
| LabelStore.ScanLabels | index.js:87-100 | the loop pushes one entry per listed `Auto-Reply`/`Replied` label in list order; each flag is true exactly when a label of that name is listed |
| LabelStore.Bootstrap | index.js:87-121 | the scan followed by the if / else-if create decision; LabelStore.CreatesAtMostOne and ReadyIff characterise it |
| LabelStore.CreateLabel | index.js:82-123 | the result and the created label are those of `Bootstrap`: the scan's entries, then at most one entry for a created label |
| LabelStore.CreatesAtMostOne | index.js:101-121 | nothing is created when both labels exist; only Auto-Reply (label list shown, messages shown) is created when Auto-Reply is missing; only Replied (both hidden) when only Replied is missing; the created entry comes last |
| LabelStore.ScanSound | index.js:87-100 | every entry carries the id of a listed label with the entry's own name |
| LabelStore.ScanAppend | index.js:87-100 | the scan of a concatenation is the concatenation of the scans, so entries come in list order |
| LabelStore.ScanWithout | index.js:87-100 | with no Auto-Reply label the scan yields only Replied entries, and with no Replied label only Auto-Reply entries |
| LabelStore.ReadyIff | index.js:87-121 | with unique label names, entry 0 is Auto-Reply and entry 1 is Replied exactly when Auto-Reply exists and, if Replied exists too, Auto-Reply is listed first; those slots then hold the listed ids, or the created id for Replied |
| LabelStore.BothMissingNotReady | index.js:101-121 | with neither label listed, the result is the one created Auto-Reply entry and has no Replied slot |
| LabelStore.RepliedFirstNotReady | index.js:87-100 | for the list `[Label("Label_1", "Replied"), Label("Label_2", "Auto-Reply")]` the result is `[RepliedEntry("Label_1"), AutoReplyEntry("Label_2")]`: the Replied entry in slot 0, the Auto-Reply entry in slot 1, and nothing created; every list with Replied first is covered by LabelStore.ReadyIff |
| LabelStore.RepliedFirstSwapped | index.js:87-121 | for every list with unique names that holds Replied before any Auto-Reply label: the result has two entries, Replied (with the listed id) in slot 0 and Auto-Reply in slot 1 |
| LabelStore.FindLabel | index.js:87-100 | the id of the first label with a given name, present exactly when such a label is listed |
| LabelStore.ResolveLabels | index.js:81-123 | the corrected bootstrap: always two entries, Auto-Reply then Replied; it creates a label exactly when that label is missing, one copy each, so the number created is the number missing; it reuses listed ids and uses new ids otherwise |
| LabelStore.ResolveIdempotent | index.js:81-123 | once the labels the corrected bootstrap created are listed after the existing ones, running it again creates nothing and resolves the same two ids |
| PollTick.SelfQuery | index.js:132 | the search for the account's own mail of the last hour; GetMails' first case is taken exactly when its answer is defined |
| PollTick.OthersQuery | index.js:149 | the search for everyone else's mail of the last hour; GetMails' second and third cases depend on its answer |
| PollTick.Modified | index.js:137-143 | one `threads.modify` (here and at index.js:187-194): a thread the mailbox holds gets (L + add) - remove; the set of threads never changes; PollTick.ModifyAllEffect lifts it to a sequence of calls |
| PollTick.ReplyFor | index.js:155-185 | the reply sent for one listed message, if any; PollTick.ReplyDecision gives both directions of when it exists and what it holds |
| PollTick.Mailbox.constructor | index.js:126-204 | a mailbox starts with the given thread label sets and no sent replies |
| PollTick.Mailbox.ModifyThread | index.js:138-143 | `threads.modify` adds the given ids, then removes the given ids, on a thread the mailbox holds; it changes nothing else |
| PollTick.Mailbox.Send | index.js:165-184 | `messages.send` appends one reply to the sent list and leaves the labels alone |
| PollTick.RepliedSlot | index.js:141 | the Replied id read from slot 1: the entry's id for a Replied entry, the text "undefined" for an Auto-Reply entry, and nothing (the read throws) when there is no slot 1 |
| PollTick.AutoReplySlot | index.js:192 | the Auto-Reply id read from slot 0: present exactly when slot 0 is an Auto-Reply entry, and then that entry's id |
| PollTick.BootstrapSlots | index.js:101-121 | after a first run the tick has no Replied id and takes the created Auto-Reply id; for every list with unique names that holds Replied before any Auto-Reply label, the self pass tags with "undefined" and the reply pass relabels nothing; the corrected bootstrap supplies both ids |
| PollTick.TagThread | index.js:136-144 | the self-pass callback adds the Replied id to the listed message's thread when the slot exists and the modify succeeds; it sends nothing |
| PollTick.AnswerMessage | index.js:154-199 | the reply-pass callback sends exactly `ReplyFor`'s reply and, when the Auto-Reply slot is usable, relabels exactly `RelabelTarget`'s thread |
| PollTick.TagAll | index.js:136-144 | the self pass over the listed own messages: nothing is sent, and the threads end as `MarkReplied` gives for the Replied id, or unchanged without a slot 1 |
| PollTick.AnswerAll | index.js:152-199 | the reply pass over the listed messages: the sent list grows by exactly `SentReplies`, and the threads end as `Relabel` gives for the Auto-Reply id, or unchanged when slot 0 is unusable |
| PollTick.GetMails | index.js:126-204 | for any label array: if the self query lists messages, nothing is sent and their threads are tagged with the Replied slot's id in order (no change without a slot 1). Otherwise, if the others query lists messages, the replies sent are `SentReplies`, and the answered threads are relabelled when slot 0 is usable. Otherwise nothing changes and the result is "No Un-Replied Emails" |
| PollTick.ModifyAllEffect | index.js:136-144 | a sequence of modify calls leaves every targeted thread with (L + add) - remove however often it is targeted, and every other thread unchanged |
| PollTick.CollectMembers | index.js:154-184 | the callbacks' replies are exactly the replies of the individual messages, each value as often as elements yield it, and no more replies than messages |
| PollTick.CollectCount | index.js:154-184 | each value is collected exactly as often as list elements yield it: one reply per answered message, so two answered messages in one thread give two replies |
| PollTick.MarkRepliedEffect | index.js:130-144 | the self pass adds Replied to exactly the threads of listed own messages whose modify succeeds; no thread loses a label or appears |
| PollTick.ReplyDecision | index.js:154-184 | a reply goes out exactly when the message is fetched, has no `In-Reply-To` field, has From and Subject, and the send succeeds; it goes to the message's thread with the encoded reply text |
| PollTick.InReplyToSkipped | index.js:160-163 | a message with an `In-Reply-To` field gets no reply and its thread is not relabelled |
| PollTick.SentRepliesMembers | index.js:154-184 | the replies sent in a pass are exactly the per-message replies: each reply appears exactly as many times as listed messages yield it |
| PollTick.RelabelEffect | index.js:186-195 | each relabelled thread's label set L becomes (L + {Auto-Reply}) - {INBOX}; all other threads keep theirs |
| PollTick.RelabelledThreadLabels | index.js:186-195 | a relabelled thread carries Auto-Reply, no longer carries INBOX, and otherwise keeps its labels |
| PollTick.RelabelOnlyAfterSend | index.js:165-195 | a thread's labels change in the reply pass only if a reply into that thread was sent in the same pass |
| PollTick.AliceScenario | index.js:154-195 | a message from alice@x.com with subject "Hi" gets one reply to alice@x.com with subject "Re: Hi", and its INBOX thread becomes an Auto-Reply thread |
| Scheduler.IntervalSeconds | index.js:63 | the interval is a whole number of seconds from 45 to 120 |
| Scheduler.PeriodMillis | index.js:65-67 | the timer period is the interval in milliseconds, between 45000 and 120000 |
| Scheduler.EveryIntervalReachable | index.js:63 | every interval from 45 to 120 seconds is produced by some draw |
| Scheduler.IntervalOfDraw | index.js:63 | the draws that give interval s form the interval [(s - 45)/76, (s - 44)/76), so all 76 intervals are equally likely |

## Left out

- The Express routes, the OAuth2 flow, token handling and `userInfo`: these are I/O and third-party calls outside the core.
- A failed `labels.list` or `labels.create` call in `createLabel` is not modelled. Such a failure rejects the whole bootstrap, and there is no state to model after it. And a `labels.list` answer without a `labels` array is not modelled: the loop throws on it.
- A failed `messages.list` call in `getMails` is not modelled; it rejects the tick before anything changes. A list answer without `messages` is modelled, as `None`.
- Concurrency: `forEach` with an async callback starts every callback without waiting. The model runs the callbacks one after another, in list order. So interleavings, and the duplicate replies two overlapping ticks could send, are not modelled.
- Base64 encoding and the Gmail meaning of the query strings (`from:`, `-from:`, `newer_than:1h`) are abstract. The model takes the encoder and each query's answer as inputs.
- `console.log` and `res.send` output, and the timer itself: the model covers the interval that `setInterval` is given, not the repetition.
- Floating point: `Math.random()` is modelled as an exact real in [0, 1).
- Header names are compared exactly, as `===` does. Gmail's own case handling is not modelled.
- A modify call naming a label id the account does not have is modelled like any other successful modify. The Gmail error it would raise is not modelled.
- A modify whose label list holds `undefined` (slot 0 is a Replied entry) is modelled as a failed call. A modify naming the label "undefined" is modelled like any other modify.
- Unhandled rejections: a failed get, send or modify, a missing From or Subject header, a missing slot 1 and a failed list call all reject a promise that nobody awaits (`forEach` drops its callbacks' promises, `setInterval` drops the tick's). On Node 15 and later such a rejection ends the process, which stops the timer and any callbacks still running. The model treats each rejection as ending only its own callback or tick, and later callbacks and ticks still run.
- The Auto-Reply label is never read back. Whether a message is answered twice on two ticks depends only on the Gmail queries, which are inputs here.

## Findings

| source | as written | input that shows it | evidently intended | confidence | as-written member | corrected member |
|---|---|---|---|---|---|---|
| index.js:101-121 | `else if` creates at most one label per run, so with neither label present only Auto-Reply is created and the result has one entry | a mailbox with no `Auto-Reply` and no `Replied` label (the first run) | create each missing label, so that both slots exist | high (not executed) | LabelStore.BothMissingNotReady | LabelStore.ResolveLabels |
| index.js:87-100 | entries are pushed in the service's list order, but `getMails` reads slot 0 as Auto-Reply and slot 1 as Replied (index.js:141, 192) | labels listed as `Replied` (Label_1) and then `Auto-Reply` (Label_2) | place each id by name, whatever the listing order | high (not executed) | LabelStore.RepliedFirstNotReady | LabelStore.ResolveLabels |
