/**
 * One polling tick (getMails, index.js:126-204) over an abstract mailbox:
 * the Gmail calls become the fields of a MailApi value, the mailbox's
 * thread label sets and the replies sent so far become the state of a
 * Mailbox object. If the query for the account's own recent mail lists
 * anything, each listed thread gets the Replied label and nothing is sent;
 * otherwise each listed inbound message without an `In-Reply-To` header
 * gets the canned reply, and its thread then gains Auto-Reply and loses
 * INBOX. The per-message callbacks run one after another, in list order.
 */
module PollTick {
  import opened Wrappers
  import opened MailTypes
  import opened Headers
  import opened MessageFormat
  import opened LabelStore

  /** The answers of the Gmail calls one tick makes. */
  datatype MailApi = MailApi(
    /** `users.messages.list({q})`: its `data.messages`, None when undefined. */
    list: string -> Option<seq<MessageRef>>,
    /** `users.messages.get({id})`: its `data`, None when the call fails. */
    get: MessageId -> Option<Message>,
    /** Whether the `users.messages.send` issued for the listed message with this id succeeds. */
    sendOk: MessageId -> bool,
    /** Whether the `users.threads.modify` issued for the listed message with this id succeeds. */
    modifyOk: MessageId -> bool,
    /** `Buffer.from(text).toString("base64")`. */
    encode: string -> string)

  /** The account's own mail of the last hour. */
  function SelfQuery(email: string): string {
    "from:" + email + " newer_than:1h"
  }

  /** Everyone else's mail of the last hour. */
  function OthersQuery(email: string): string {
    "-from:" + email + " newer_than:1h"
  }

  type Threads = map<ThreadId, set<LabelId>>

  /** `users.threads.modify`: add, then remove; a thread the mailbox does not hold is left alone (the call fails). */
  function Modified(threads: Threads, thread: ThreadId, add: set<LabelId>, remove: set<LabelId>): (r: Threads)
    ensures r.Keys == threads.Keys
  {
    if thread in threads then threads[thread := (threads[thread] + add) - remove] else threads
  }

  /** getMails' return value: undefined after the self pass, "No Un-Replied Emails", or the dispatch. */
  datatype TickOutcome = MarkedUserReplies | NoUnrepliedEmails | Dispatched

  // ---- Reading createLabel's result -----------------------------------------

  /** What a template literal makes of an undefined property. */
  const Undefined := "undefined"

  /**
   * `${lableIds[1].replied}` (index.js:141): the Replied id; the text
   * "undefined" when slot 1 holds an Auto-Reply entry; None when there is
   * no slot 1, since reading a property of undefined throws.
   */
  function RepliedSlot(labelIds: seq<LabelEntry>): (r: Option<LabelId>)
    ensures r.None? <==> |labelIds| < 2
    ensures |labelIds| >= 2 && labelIds[1].RepliedEntry? ==> r == Some(labelIds[1].id)
    ensures |labelIds| >= 2 && labelIds[1].AutoReplyEntry? ==> r == Some(Undefined)
  {
    if |labelIds| < 2 then None
    else if labelIds[1].RepliedEntry? then Some(labelIds[1].id)
    else Some(Undefined)
  }

  /**
   * `lableIds[0].autoReply` (index.js:192): the Auto-Reply id, or None when
   * there is no slot 0 (the read throws) or slot 0 holds a Replied entry
   * (the modify names an undefined label and fails).
   */
  function AutoReplySlot(labelIds: seq<LabelEntry>): (r: Option<LabelId>)
    ensures r.Some? <==> |labelIds| >= 1 && labelIds[0].AutoReplyEntry?
    ensures r.Some? ==> r.value == labelIds[0].id
  {
    if |labelIds| >= 1 && labelIds[0].AutoReplyEntry? then Some(labelIds[0].id) else None
  }

  // ---- Sequential folds over a message list -------------------------------

  /** The label sets after one modify call per element of `xs` that `target` maps to a thread, in order. */
  function ModifyAll<X>(threads: Threads, xs: seq<X>, target: X -> Option<ThreadId>,
                        add: set<LabelId>, remove: set<LabelId>): (r: Threads)
    ensures r.Keys == threads.Keys
    decreases |xs|
  {
    if xs == [] then threads
    else
      var before := ModifyAll(threads, xs[..|xs| - 1], target, add, remove);
      match target(xs[|xs| - 1])
      case None => before
      case Some(t) => Modified(before, t, add, remove)
  }

  /** Some element of `xs` is mapped to `thread`. */
  predicate Targets<X>(xs: seq<X>, target: X -> Option<ThreadId>, thread: ThreadId) {
    exists k :: 0 <= k < |xs| && target(xs[k]) == Some(thread)
  }

  /** The values `f` yields along `xs`, in order. */
  function Collect<X, Y>(xs: seq<X>, f: X -> Option<Y>): seq<Y>
    decreases |xs|
  {
    if xs == [] then []
    else Collect(xs[..|xs| - 1], f) + (if f(xs[|xs| - 1]).Some? then [f(xs[|xs| - 1]).value] else [])
  }

  // ---- The self pass (index.js:130-144) ------------------------------------

  /** The thread a listed own message tags: its thread, unless the modify call fails. */
  function SelfTarget(r: MessageRef, api: MailApi): Option<ThreadId> {
    if api.modifyOk(r.id) then Some(r.threadId) else None
  }

  /** The label sets after the self pass has tagged the threads of `refs`, in order, with `repliedId`. */
  function MarkReplied(threads: Threads, refs: seq<MessageRef>, repliedId: LabelId, api: MailApi): Threads {
    ModifyAll(threads, refs, r => SelfTarget(r, api), {repliedId}, {})
  }

  // ---- The reply pass (index.js:147-199) -----------------------------------

  /**
   * The reply sent for one listed message, if any: none when the message
   * cannot be fetched, when it has an `In-Reply-To` header, when it lacks
   * a `From` or `Subject` header (reading `.value` of undefined throws
   * before the send), or when the send fails.
   */
  function ReplyFor(r: MessageRef, api: MailApi): Option<Outgoing> {
    match api.get(r.id)
    case None => None
    case Some(mail) =>
      if HasReplied(mail.headers) then None
      else
        var from, subject := Lookup(mail.headers, FromField), Lookup(mail.headers, SubjectField);
        if from.None? || subject.None? || !api.sendOk(r.id) then None
        else Some(Outgoing(mail.threadId, mail.id, api.encode(ReplyText(from.value, subject.value))))
  }

  /** The replies the pass sends for `refs`, in list order. */
  function SentReplies(refs: seq<MessageRef>, api: MailApi): seq<Outgoing> {
    Collect(refs, r => ReplyFor(r, api))
  }

  /** The thread relabelled for one listed message: its reply went out and the modify call succeeded. */
  function RelabelTarget(r: MessageRef, api: MailApi): Option<ThreadId> {
    if ReplyFor(r, api).Some? && api.modifyOk(r.id) then Some(ReplyFor(r, api).value.threadId) else None
  }

  /** The label sets after the pass has relabelled the answered threads of `refs`, in order. */
  function Relabel(threads: Threads, refs: seq<MessageRef>, autoReplyId: LabelId, api: MailApi): Threads {
    ModifyAll(threads, refs, r => RelabelTarget(r, api), {autoReplyId}, {Inbox})
  }

  // ---- The mailbox and the tick ---------------------------------------------

  /** The part of the mail account a tick changes. */
  class Mailbox {
    var threads: Threads
    var sent: seq<Outgoing>

    constructor (threads: Threads)
      ensures this.threads == threads && sent == []
    {
      this.threads := threads;
      sent := [];
    }

    /** `users.threads.modify` on one thread. */
    method ModifyThread(thread: ThreadId, add: set<LabelId>, remove: set<LabelId>)
      modifies this
      ensures threads == Modified(old(threads), thread, add, remove)
      ensures sent == old(sent)
    {
      if thread in threads {
        threads := threads[thread := (threads[thread] + add) - remove];
      }
    }

    /** `users.messages.send` of one reply. */
    method Send(o: Outgoing)
      modifies this
      ensures sent == old(sent) + [o]
      ensures threads == old(threads)
    {
      sent := sent + [o];
    }
  }

  /** The self pass's callback for one listed own message (index.js:136-144). */
  method TagThread(mailbox: Mailbox, value: MessageRef, repliedId: Option<LabelId>, api: MailApi)
    modifies mailbox
    ensures mailbox.threads ==
      match (repliedId, SelfTarget(value, api))
      case (Some(l), Some(t)) => Modified(old(mailbox.threads), t, {l}, {})
      case _ => old(mailbox.threads)
    ensures mailbox.sent == old(mailbox.sent)
  {
    // Without a slot 1 the callback throws while building the request.
    if repliedId.Some? && api.modifyOk(value.id) {
      mailbox.ModifyThread(value.threadId, {repliedId.value}, {});
    }
  }

  /** The reply pass's callback for one listed message (index.js:154-199): fetch, check, send, relabel. */
  method AnswerMessage(mailbox: Mailbox, value: MessageRef, autoReplyId: Option<LabelId>, api: MailApi)
    modifies mailbox
    ensures mailbox.sent == old(mailbox.sent) +
      (if ReplyFor(value, api).Some? then [ReplyFor(value, api).value] else [])
    ensures mailbox.threads ==
      match (autoReplyId, RelabelTarget(value, api))
      case (Some(l), Some(t)) => Modified(old(mailbox.threads), t, {l}, {Inbox})
      case _ => old(mailbox.threads)
  {
    // A failed get rejects the callback before anything is sent.
    var mailDetails := api.get(value.id);
    if mailDetails.Some? {
      var mail := mailDetails.value;
      var hasReplied := HasReplied(mail.headers);
      if !hasReplied {
        // Reading `.value` of a missing From or Subject header throws, and a failed send
        // rejects: either ends the callback before the modify.
        var from, subject := Lookup(mail.headers, FromField), Lookup(mail.headers, SubjectField);
        if from.Some? && subject.Some? && api.sendOk(value.id) {
          mailbox.Send(Outgoing(mail.threadId, mail.id, api.encode(ReplyText(from.value, subject.value))));
          // The Auto-Reply slot is read only after the send.
          if autoReplyId.Some? && api.modifyOk(value.id) {
            mailbox.ModifyThread(mail.threadId, {autoReplyId.value}, {Inbox});
          }
        }
      }
    }
  }

  /**
   * getMails: one tick, for any label array; RepliedSlot and AutoReplySlot
   * say what its two reads of that array give.
   */
  method GetMails(mailbox: Mailbox, email: string, labelIds: seq<LabelEntry>, api: MailApi) returns (outcome: TickOutcome)
    modifies mailbox
    ensures var selfSent := api.list(SelfQuery(email));
      selfSent.Some? ==>
        && outcome == MarkedUserReplies
        && mailbox.sent == old(mailbox.sent)
        && mailbox.threads ==
             match RepliedSlot(labelIds)
             case None => old(mailbox.threads)
             case Some(l) => MarkReplied(old(mailbox.threads), selfSent.value, l, api)
    ensures var selfSent, others := api.list(SelfQuery(email)), api.list(OthersQuery(email));
      selfSent.None? && others.Some? ==>
        && outcome == Dispatched
        && mailbox.sent == old(mailbox.sent) + SentReplies(others.value, api)
        && mailbox.threads ==
             match AutoReplySlot(labelIds)
             case None => old(mailbox.threads)
             case Some(l) => Relabel(old(mailbox.threads), others.value, l, api)
    ensures var selfSent, others := api.list(SelfQuery(email)), api.list(OthersQuery(email));
      selfSent.None? && others.None? ==>
        && outcome == NoUnrepliedEmails
        && mailbox.sent == old(mailbox.sent)
        && mailbox.threads == old(mailbox.threads)
  {
    var repliedMails := api.list(SelfQuery(email));
    if repliedMails.Some? {
      TagAll(mailbox, repliedMails.value, RepliedSlot(labelIds), api);
      outcome := MarkedUserReplies;
    } else {
      var unrepliedMails := api.list(OthersQuery(email));
      if unrepliedMails.Some? {
        AnswerAll(mailbox, unrepliedMails.value, AutoReplySlot(labelIds), api);
        outcome := Dispatched;
      } else {
        outcome := NoUnrepliedEmails;
      }
    }
  }

  /** The self pass's `forEach` (index.js:136-144), one callback after another. */
  method TagAll(mailbox: Mailbox, refs: seq<MessageRef>, repliedId: Option<LabelId>, api: MailApi)
    modifies mailbox
    ensures mailbox.sent == old(mailbox.sent)
    ensures mailbox.threads ==
      match repliedId
      case None => old(mailbox.threads)
      case Some(l) => MarkReplied(old(mailbox.threads), refs, l, api)
  {
    ghost var target := r => SelfTarget(r, api);
    var i := 0;
    while i < |refs|
      invariant 0 <= i <= |refs|
      invariant mailbox.threads ==
        match repliedId
        case None => old(mailbox.threads)
        case Some(l) => ModifyAll(old(mailbox.threads), refs[..i], target, {l}, {})
      invariant mailbox.sent == old(mailbox.sent)
    {
      assert refs[..i + 1][..i] == refs[..i];
      TagThread(mailbox, refs[i], repliedId, api);
      i := i + 1;
    }
    assert refs[..i] == refs;
  }

  /** The reply pass's `forEach` (index.js:152-199), one callback after another. */
  method AnswerAll(mailbox: Mailbox, refs: seq<MessageRef>, autoReplyId: Option<LabelId>, api: MailApi)
    modifies mailbox
    ensures mailbox.sent == old(mailbox.sent) + SentReplies(refs, api)
    ensures mailbox.threads ==
      match autoReplyId
      case None => old(mailbox.threads)
      case Some(l) => Relabel(old(mailbox.threads), refs, l, api)
  {
    ghost var reply, target := r => ReplyFor(r, api), r => RelabelTarget(r, api);
    var i := 0;
    while i < |refs|
      invariant 0 <= i <= |refs|
      invariant mailbox.sent == old(mailbox.sent) + Collect(refs[..i], reply)
      invariant mailbox.threads ==
        match autoReplyId
        case None => old(mailbox.threads)
        case Some(l) => ModifyAll(old(mailbox.threads), refs[..i], target, {l}, {Inbox})
    {
      assert refs[..i + 1][..i] == refs[..i];
      AnswerMessage(mailbox, refs[i], autoReplyId, api);
      i := i + 1;
    }
    assert refs[..i] == refs;
  }

  // ---- What a tick reads from createLabel's result ------------------------

  /**
   * On a first run (neither label listed) the tick has no Replied slot, so
   * the self pass tags nothing; with Replied listed before any Auto-Reply the
   * self pass tags threads with the text "undefined" and the reply pass
   * relabels nothing. The corrected bootstrap gives both slots their ids.
   */
  lemma BootstrapSlots(labels: seq<Label>, createdId: LabelId, newAutoReplyId: LabelId, newRepliedId: LabelId)
    ensures !HasLabel(labels, AutoReplyName) && !HasLabel(labels, RepliedName) ==>
      RepliedSlot(Bootstrap(labels, createdId).entries) == None &&
      AutoReplySlot(Bootstrap(labels, createdId).entries) == Some(createdId)
    ensures (UniqueNames(labels) &&
             exists j :: 0 <= j < |labels| && labels[j].name == RepliedName &&
               forall i :: 0 <= i < j ==> labels[i].name != AutoReplyName) ==>
      RepliedSlot(Bootstrap(labels, createdId).entries) == Some(Undefined) &&
      AutoReplySlot(Bootstrap(labels, createdId).entries) == None
    ensures var r := ResolveLabels(labels, newAutoReplyId, newRepliedId);
      RepliedSlot(r.entries) == Some(r.entries[1].id) && AutoReplySlot(r.entries) == Some(r.entries[0].id)
  {
    if !HasLabel(labels, AutoReplyName) && !HasLabel(labels, RepliedName) {
      BothMissingNotReady(labels, createdId);
    }
    if UniqueNames(labels) &&
      exists j :: 0 <= j < |labels| && labels[j].name == RepliedName &&
        forall i :: 0 <= i < j ==> labels[i].name != AutoReplyName
    {
      var j :| 0 <= j < |labels| && labels[j].name == RepliedName &&
        forall i :: 0 <= i < j ==> labels[i].name != AutoReplyName;
      RepliedFirstSwapped(labels, createdId, j);
    }
  }

  // ---- Lemmas about the folds ----------------------------------------------

  /**
   * One modify per targeted element: every targeted thread ends with
   * (L + add) - remove, however many elements target it, and every other
   * thread keeps its label set.
   */
  lemma {:induction false} ModifyAllEffect<X>(threads: Threads, xs: seq<X>, target: X -> Option<ThreadId>,
                                             add: set<LabelId>, remove: set<LabelId>)
    ensures forall t :: t in threads ==>
      ModifyAll(threads, xs, target, add, remove)[t] ==
        if Targets(xs, target, t) then (threads[t] + add) - remove else threads[t]
  {
    if xs != [] {
      var front := xs[..|xs| - 1];
      ModifyAllEffect(threads, front, target, add, remove);
      forall t ensures Targets(xs, target, t) <==> Targets(front, target, t) || target(xs[|xs| - 1]) == Some(t) {
        if Targets(xs, target, t) {
          var k :| 0 <= k < |xs| && target(xs[k]) == Some(t);
          if k < |front| { assert front[k] == xs[k]; }
        }
        if Targets(front, target, t) {
          var k :| 0 <= k < |front| && target(front[k]) == Some(t);
          assert xs[k] == front[k];
        }
      }
      match target(xs[|xs| - 1])
      case None =>
      case Some(t) =>
        if t in threads && Targets(front, target, t) {
          assert ((threads[t] + add) - remove + add) - remove == (threads[t] + add) - remove;
        }
    }
  }

  /** The positions of `xs` at which `f` yields `y`. */
  ghost function Yielding<X, Y>(xs: seq<X>, f: X -> Option<Y>, y: Y): set<nat> {
    set k: nat | k < |xs| && f(xs[k]) == Some(y)
  }

  /**
   * Collect yields exactly the values of the elements `f` maps to a value:
   * each value as often as elements yield it.
   */
  lemma {:induction false} CollectMembers<X, Y>(xs: seq<X>, f: X -> Option<Y>)
    ensures |Collect(xs, f)| <= |xs|
    ensures forall y :: y in Collect(xs, f) <==> exists k :: 0 <= k < |xs| && f(xs[k]) == Some(y)
    ensures forall y :: multiset(Collect(xs, f))[y] == |Yielding(xs, f, y)|
  {
    forall y ensures multiset(Collect(xs, f))[y] == |Yielding(xs, f, y)| {
      CollectCount(xs, f, y);
    }
    if xs != [] {
      var front := xs[..|xs| - 1];
      CollectMembers(front, f);
      forall y ensures y in Collect(xs, f) <==> exists k :: 0 <= k < |xs| && f(xs[k]) == Some(y) {
        if y in Collect(xs, f) {
          if y in Collect(front, f) {
            var k :| 0 <= k < |front| && f(front[k]) == Some(y);
            assert xs[k] == front[k];
          } else {
            assert f(xs[|xs| - 1]) == Some(y);
          }
        }
        if exists k :: 0 <= k < |xs| && f(xs[k]) == Some(y) {
          var k :| 0 <= k < |xs| && f(xs[k]) == Some(y);
          if k < |front| {
            assert front[k] == xs[k];
          }
        }
      }
    }
  }

  /** Collect yields `y` once for each element that `f` maps to it. */
  lemma {:induction false} CollectCount<X, Y>(xs: seq<X>, f: X -> Option<Y>, y: Y)
    ensures multiset(Collect(xs, f))[y] == |Yielding(xs, f, y)|
    decreases |xs|
  {
    if xs == [] {
      assert Yielding(xs, f, y) == {};
    } else {
      CollectCount(xs[..|xs| - 1], f, y);
      CollectLast(xs, f, y);
      YieldingLast(xs, f, y);
    }
  }

  /** The last element adds one occurrence of `y` to Collect exactly when it yields `y`. */
  lemma CollectLast<X, Y>(xs: seq<X>, f: X -> Option<Y>, y: Y)
    requires xs != []
    ensures multiset(Collect(xs, f))[y] ==
      multiset(Collect(xs[..|xs| - 1], f))[y] + if f(xs[|xs| - 1]) == Some(y) then 1 else 0
  {
    var last := xs[|xs| - 1];
    var extra := if f(last).Some? then [f(last).value] else [];
    assert Collect(xs, f) == Collect(xs[..|xs| - 1], f) + extra;
    assert multiset(Collect(xs, f)) == multiset(Collect(xs[..|xs| - 1], f)) + multiset(extra);
  }

  /** The last position is in Yielding exactly when the last element yields `y`. */
  lemma YieldingLast<X, Y>(xs: seq<X>, f: X -> Option<Y>, y: Y)
    requires xs != []
    ensures |Yielding(xs, f, y)| ==
      |Yielding(xs[..|xs| - 1], f, y)| + if f(xs[|xs| - 1]) == Some(y) then 1 else 0
  {
    var front, last := xs[..|xs| - 1], |xs| - 1;
    var before, after := Yielding(front, f, y), Yielding(xs, f, y);
    assert forall k :: 0 <= k < last ==> front[k] == xs[k];
    assert last !in before;
    if f(xs[last]) == Some(y) {
      assert after == before + {last};
    } else {
      assert after == before;
    }
  }

  // ---- Lemmas about the self pass -------------------------------------------

  /**
   * The self pass adds the Replied id to exactly the threads of the listed
   * messages whose modify call succeeded; every other thread keeps its
   * label set, no thread appears or disappears, and no thread loses a
   * label (INBOX in particular).
   */
  lemma MarkRepliedEffect(threads: Threads, refs: seq<MessageRef>, repliedId: LabelId, api: MailApi)
    ensures MarkReplied(threads, refs, repliedId, api).Keys == threads.Keys
    ensures forall t :: t in threads ==>
      MarkReplied(threads, refs, repliedId, api)[t] ==
        if exists k :: 0 <= k < |refs| && refs[k].threadId == t && api.modifyOk(refs[k].id)
        then threads[t] + {repliedId} else threads[t]
    ensures forall t :: t in threads ==> threads[t] <= MarkReplied(threads, refs, repliedId, api)[t]
  {
    var target := r => SelfTarget(r, api);
    ModifyAllEffect(threads, refs, target, {repliedId}, {});
    forall t ensures Targets(refs, target, t) <==> exists k :: 0 <= k < |refs| && refs[k].threadId == t && api.modifyOk(refs[k].id) {
      if Targets(refs, target, t) {
        var k :| 0 <= k < |refs| && target(refs[k]) == Some(t);
        assert refs[k].threadId == t && api.modifyOk(refs[k].id);
      }
    }
  }

  // ---- Lemmas about the reply pass ------------------------------------------

  /**
   * The reply decision for one listed message: a reply goes out exactly
   * when the message could be fetched, has no header named `In-Reply-To`,
   * has `From` and `Subject` headers, and the send succeeds. It goes to
   * the message's thread, and its raw text is the encoded reply built from
   * the first `From` and the first `Subject` value.
   */
  lemma ReplyDecision(r: MessageRef, api: MailApi)
    ensures ReplyFor(r, api).Some? <==>
      && api.get(r.id).Some?
      && !HasReplied(api.get(r.id).value.headers)
      && HasField(api.get(r.id).value.headers, FromField)
      && HasField(api.get(r.id).value.headers, SubjectField)
      && api.sendOk(r.id)
    ensures ReplyFor(r, api).Some? ==>
      var mail := api.get(r.id).value;
      ReplyFor(r, api).value == Outgoing(mail.threadId, mail.id,
        api.encode(ReplyText(Lookup(mail.headers, FromField).value, Lookup(mail.headers, SubjectField).value)))
  {
  }

  /** A message that is already part of a reply chain gets no reply and relabels nothing. */
  lemma InReplyToSkipped(r: MessageRef, api: MailApi)
    requires api.get(r.id).Some? && HasReplied(api.get(r.id).value.headers)
    ensures ReplyFor(r, api) == None && RelabelTarget(r, api) == None
  {
  }

  /** The replies sent are exactly those of the listed messages that get one, each as often as listed messages yield it. */
  lemma SentRepliesMembers(refs: seq<MessageRef>, api: MailApi)
    ensures |SentReplies(refs, api)| <= |refs|
    ensures forall o :: o in SentReplies(refs, api) <==>
      exists k :: 0 <= k < |refs| && ReplyFor(refs[k], api) == Some(o)
    ensures forall o ::
      multiset(SentReplies(refs, api))[o] == |set k: nat | k < |refs| && ReplyFor(refs[k], api) == Some(o)|
  {
    var f := r => ReplyFor(r, api);
    CollectMembers(refs, f);
    assert forall k :: 0 <= k < |refs| ==> f(refs[k]) == ReplyFor(refs[k], api);
    forall o ensures Yielding(refs, f, o) == set k: nat | k < |refs| && ReplyFor(refs[k], api) == Some(o) {
    }
  }

  /**
   * The reply pass turns the label set L of each relabelled thread into
   * (L + {autoReplyId}) - {INBOX}, however many of its messages were
   * answered, and leaves every other thread's label set alone.
   */
  lemma RelabelEffect(threads: Threads, refs: seq<MessageRef>, autoReplyId: LabelId, api: MailApi)
    ensures Relabel(threads, refs, autoReplyId, api).Keys == threads.Keys
    ensures forall t :: t in threads ==>
      Relabel(threads, refs, autoReplyId, api)[t] ==
        if exists k :: 0 <= k < |refs| && RelabelTarget(refs[k], api) == Some(t)
        then (threads[t] + {autoReplyId}) - {Inbox} else threads[t]
  {
    var target := r => RelabelTarget(r, api);
    ModifyAllEffect(threads, refs, target, {autoReplyId}, {Inbox});
    assert forall k :: 0 <= k < |refs| ==> target(refs[k]) == RelabelTarget(refs[k], api);
  }

  /** A relabelled thread carries Auto-Reply and no longer carries INBOX (a user label's id is never INBOX). */
  lemma RelabelledThreadLabels(threads: Threads, refs: seq<MessageRef>, autoReplyId: LabelId, api: MailApi, t: ThreadId)
    requires autoReplyId != Inbox
    requires t in threads
    requires exists k :: 0 <= k < |refs| && RelabelTarget(refs[k], api) == Some(t)
    ensures t in Relabel(threads, refs, autoReplyId, api)
    ensures autoReplyId in Relabel(threads, refs, autoReplyId, api)[t]
    ensures Inbox !in Relabel(threads, refs, autoReplyId, api)[t]
    ensures Relabel(threads, refs, autoReplyId, api)[t] - {autoReplyId} == threads[t] - {Inbox, autoReplyId}
  {
    RelabelEffect(threads, refs, autoReplyId, api);
  }

  /** A thread's label set changes only if a reply into that thread was sent in the same pass. */
  lemma RelabelOnlyAfterSend(threads: Threads, refs: seq<MessageRef>, autoReplyId: LabelId, api: MailApi)
    ensures forall t :: t in threads ==>
      t in Relabel(threads, refs, autoReplyId, api) &&
      (Relabel(threads, refs, autoReplyId, api)[t] != threads[t] ==>
        exists o :: o in SentReplies(refs, api) && o.threadId == t)
  {
    RelabelEffect(threads, refs, autoReplyId, api);
    SentRepliesMembers(refs, api);
    forall t | t in threads && Relabel(threads, refs, autoReplyId, api)[t] != threads[t]
      ensures exists o :: o in SentReplies(refs, api) && o.threadId == t
    {
      var k :| 0 <= k < |refs| && RelabelTarget(refs[k], api) == Some(t);
      var o := ReplyFor(refs[k], api).value;
      assert o in SentReplies(refs, api);
    }
  }

  /**
   * The scenario of one message from alice@x.com with subject "Hi" and no
   * reply-chain header, answered by the reply pass:
   * one reply "Re: Hi" to alice@x.com goes to its thread, which then
   * carries Auto-Reply instead of INBOX.
   */
  lemma AliceScenario(api: MailApi, autoReplyId: LabelId)
    requires autoReplyId != Inbox
    requires api.get("m1") ==
      Some(Message("m1", "t1", [Header("From", "alice@x.com"), Header("Subject", "Hi")]))
    requires api.sendOk("m1") && api.modifyOk("m1")
    ensures var refs := [MessageRef("m1", "t1")];
      && SentReplies(refs, api) == [Outgoing("t1", "m1", api.encode(ReplyText("alice@x.com", "Hi")))]
      && Relabel(map["t1" := {Inbox}], refs, autoReplyId, api) == map["t1" := {autoReplyId}]
  {
    var refs := [MessageRef("m1", "t1")];
    var hs := [Header("From", "alice@x.com"), Header("Subject", "Hi")];
    assert !HasReplied(hs) by {
      assert hs[0].name != InReplyTo && hs[1].name != InReplyTo;
    }
    assert Lookup(hs, FromField) == Some("alice@x.com");
    assert hs[0].name != SubjectField;
    assert Lookup(hs, SubjectField) == Some("Hi");
    assert refs[..0] == [];
    assert ({Inbox} + {autoReplyId}) - {Inbox} == {autoReplyId};
  }
}
