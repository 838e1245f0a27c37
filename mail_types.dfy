/**
 * The mailbox entities the auto-responder reads and writes, as the Gmail
 * API hands them to index.js: labels, message references from a list
 * query, fully fetched messages with their header fields, and the raw
 * replies it sends.
 */
module MailTypes {
  type LabelId = string
  type MessageId = string
  type ThreadId = string

  /** The system label id that `threads.modify` removes from an answered thread. */
  const Inbox: LabelId := "INBOX"

  /** One entry of `users.labels.list`: only the id and the name are read. */
  datatype Label = Label(id: LabelId, name: string)

  /** One header field of `payload.headers`. */
  datatype Header = Header(name: string, value: string)

  /** One entry of `users.messages.list`. */
  datatype MessageRef = MessageRef(id: MessageId, threadId: ThreadId)

  /** A message as returned by `users.messages.get`. */
  datatype Message = Message(id: MessageId, threadId: ThreadId, headers: seq<Header>)

  /** The `resource` of one `users.messages.send` call: the raw text is already encoded. */
  datatype Outgoing = Outgoing(threadId: ThreadId, id: MessageId, raw: string)
}
