/** The persisted entities of an inquiry thread: the `Inquiry` record, its
    `InquiryMessage`s, the `InquiryStatus` enum, and the records of the
    collaborating entities (user, agent, property) as far as the thread
    engine reads them.

    A builder (`Inquiry.builder()…build()`) produces a draft whose fields
    may still be null; the `@PrePersist` hook and the `nullable = false`
    columns turn it into a stored row, which is what `Persist…` model. */
module InquiryModel {
  import opened Wrappers

  /** A `LocalDateTime`, as a point on a totally ordered clock. */
  type Time = int

  /** The roles of the identity model. */
  datatype Role = User | Agent | Admin | Seller

  datatype InquiryStatus = Pending | Replied | Closed

  datatype UserRecord = UserRecord(id: nat, name: string, email: string, role: Role)

  /** An agent profile; `linkedUserId` is the id of the login account
      linked to it, if any. */
  datatype AgentRecord = AgentRecord(id: nat, name: string, linkedUserId: Option<nat>)

  /** A listing, with the agent currently responsible for it. */
  datatype PropertyRecord = PropertyRecord(id: nat, title: string, address: string, assignedAgent: Option<AgentRecord>)

  /** A stored inquiry. `createdAt` and `lastMessageAt` are never null
      once the row has been persisted. */
  datatype Inquiry = Inquiry(
    id: nat,
    user: UserRecord,
    property: PropertyRecord,
    assignedAgent: Option<AgentRecord>,
    status: InquiryStatus,
    lastMessageAt: Time,
    lastReadAtUser: Option<Time>,
    lastReadAtAdmin: Option<Time>,
    createdAt: Time)

  /** What `Inquiry.builder()` has been given before `build()`; `status`
      is `None` when the builder was not told one. */
  datatype InquiryDraft = InquiryDraft(
    user: Option<UserRecord>,
    property: Option<PropertyRecord>,
    assignedAgent: Option<AgentRecord>,
    status: Option<InquiryStatus>,
    lastMessageAt: Option<Time>,
    lastReadAtUser: Option<Time>,
    lastReadAtAdmin: Option<Time>,
    createdAt: Option<Time>)

  /** The status a built inquiry gets when the builder was not given one. */
  const DefaultStatus := Pending

  /** Saving a draft under the fresh `id` at time `now`: refused (`None`)
      when a non-nullable reference (user, property) is missing; otherwise
      the builder default applies to `status`, and `onCreate` fills
      `createdAt` and then `lastMessageAt` only where they are absent. */
  function PersistInquiry(d: InquiryDraft, id: nat, now: Time): (r: Option<Inquiry>)
    ensures r.Some? <==> d.user.Some? && d.property.Some?
    ensures r.Some? ==>
      && r.value.id == id
      && r.value.user == d.user.value
      && r.value.property == d.property.value
      && r.value.assignedAgent == d.assignedAgent
      && r.value.lastReadAtUser == d.lastReadAtUser
      && r.value.lastReadAtAdmin == d.lastReadAtAdmin
      && (d.status.None? ==> r.value.status == Pending)
      && (d.status.Some? ==> r.value.status == d.status.value)
      && (d.createdAt.Some? ==> r.value.createdAt == d.createdAt.value)
      && (d.createdAt.None? ==> r.value.createdAt == now)
      && (d.lastMessageAt.Some? ==> r.value.lastMessageAt == d.lastMessageAt.value)
      && (d.lastMessageAt.None? ==> r.value.lastMessageAt == r.value.createdAt)
  {
    if d.user.None? || d.property.None? then None
    else
      var createdAt := d.createdAt.GetOr(now);
      Some(Inquiry(id, d.user.value, d.property.value, d.assignedAgent,
                   d.status.GetOr(DefaultStatus), d.lastMessageAt.GetOr(createdAt),
                   d.lastReadAtUser, d.lastReadAtAdmin, createdAt))
  }

  /** The draft that describes a stored inquiry field for field. */
  function DraftOf(i: Inquiry): InquiryDraft {
    InquiryDraft(Some(i.user), Some(i.property), i.assignedAgent, Some(i.status),
                 Some(i.lastMessageAt), i.lastReadAtUser, i.lastReadAtAdmin, Some(i.createdAt))
  }

  /** `onCreate` never overwrites a provided value: saving the full
      description of a row again, at any later time, yields that row. */
  lemma PersistKeepsProvidedValues(i: Inquiry, later: Time)
    ensures PersistInquiry(DraftOf(i), i.id, later) == Some(i)
  {
  }

  /** A stored message of a thread. */
  datatype InquiryMessage = InquiryMessage(
    id: nat,
    inquiryId: nat,
    senderId: nat,
    senderRole: Role,
    text: string,
    createdAt: Time)

  /** What `InquiryMessage.builder()` has been given before `build()`. */
  datatype MessageDraft = MessageDraft(
    inquiryId: Option<nat>,
    senderId: Option<nat>,
    senderRole: Option<Role>,
    text: Option<string>,
    createdAt: Option<Time>)

  /** Saving a message draft: refused when the parent inquiry, the sender
      id, the sender role or the text is missing; `onCreate` stamps
      `createdAt` with `now` only when it is absent. */
  function PersistMessage(d: MessageDraft, id: nat, now: Time): (r: Option<InquiryMessage>)
    ensures r.Some? <==> d.inquiryId.Some? && d.senderId.Some? && d.senderRole.Some? && d.text.Some?
    ensures r.Some? ==>
      && r.value.id == id
      && r.value.inquiryId == d.inquiryId.value
      && r.value.senderId == d.senderId.value
      && r.value.senderRole == d.senderRole.value
      && r.value.text == d.text.value
      && (d.createdAt.Some? ==> r.value.createdAt == d.createdAt.value)
      && (d.createdAt.None? ==> r.value.createdAt == now)
  {
    if d.inquiryId.None? || d.senderId.None? || d.senderRole.None? || d.text.None? then None
    else Some(InquiryMessage(id, d.inquiryId.value, d.senderId.value, d.senderRole.value,
                             d.text.value, d.createdAt.GetOr(now)))
  }

  function MessageDraftOf(m: InquiryMessage): MessageDraft {
    MessageDraft(Some(m.inquiryId), Some(m.senderId), Some(m.senderRole), Some(m.text), Some(m.createdAt))
  }

  /** The message `onCreate` never restamps a provided `createdAt`. */
  lemma PersistMessageKeepsProvidedValues(m: InquiryMessage, later: Time)
    ensures PersistMessage(MessageDraftOf(m), m.id, later) == Some(m)
  {
  }
}
