/** The inquiry thread engine: creating inquiries, user follow-ups, staff
    replies, closing, reassignment, the three role-scoped thread fetches
    and the three list views. Every operation takes the stored tables, the
    collaborator lookups, the current user and the clock reading, and
    either fails with the service's exception message (nothing is then
    written) or returns the new tables, its answer and the broadcasts it
    sent, in order. */
module InquiryService {
  import opened Wrappers
  import opened JavaStrings
  import opened InquiryModel
  import opened InquiryRepository
  import opened InquiryMessageRepository
  import opened InquiryViews
  import opened Ordering

  /** The two stored tables the engine writes. */
  datatype Db = Db(inquiries: seq<Inquiry>, messages: seq<InquiryMessage>)

  datatype Payload = SummaryPayload(summary: InquiryDto) | MessagePayload(message: MessageDto)

  /** One `convertAndSend(topic, payload)`. */
  datatype Broadcast = Broadcast(topic: string, payload: Payload)

  /** The outcome of a successful operation. */
  datatype Step<T> = Step(db: Db, value: T, sent: seq<Broadcast>)

  /** Identity-generated keys without deletions: the k-th row of each table
      has id k + 1, and every message belongs to a stored inquiry. */
  predicate Valid(db: Db) {
    && (forall k :: 0 <= k < |db.inquiries| ==> db.inquiries[k].id == k + 1)
    && (forall k :: 0 <= k < |db.messages| ==>
          db.messages[k].id == k + 1 && 1 <= db.messages[k].inquiryId <= |db.inquiries|)
  }

  /** The invariant gives the inquiry table its primary key. */
  lemma ValidIdsUnique(db: Db)
    requires Valid(db)
    ensures IdsUnique(db.inquiries)
  {
  }

  /** The login account linked to the inquiry's assigned agent, if both exist. */
  function AgentUserOf(i: Inquiry): Option<nat> {
    if i.assignedAgent.Some? then i.assignedAgent.value.linkedUserId else None
  }

  /** A new message of `sender` in thread `inquiryId`, stamped `now`, under
      the next message id. */
  function NewMessage(db: Db, inquiryId: nat, sender: UserRecord, text: string, now: Time): (m: InquiryMessage)
    ensures m.id == |db.messages| + 1 && m.inquiryId == inquiryId
    ensures m.senderId == sender.id && m.senderRole == sender.role
    ensures m.text == text && m.createdAt == now
  {
    PersistMessage(MessageDraft(Some(inquiryId), Some(sender.id), Some(sender.role), Some(text), Some(now)),
                   |db.messages| + 1, now).value
  }

  /** Whether a responder may act on `inq` as staff: `None` when allowed,
      otherwise the exception message. An admin is never refused; anyone
      else must have an agent profile, and that agent must be the one the
      inquiry is assigned to. */
  function StaffDenial(dir: Directory, caller: UserRecord, isAdmin: bool, inq: Inquiry): (r: Option<string>)
    ensures isAdmin ==> r.None?
    ensures !isAdmin ==> (r.None? <==>
      && caller.id in dir.agentsByLinkedUser
      && inq.assignedAgent.Some?
      && inq.assignedAgent.value.id == dir.agentsByLinkedUser[caller.id].id)
    ensures r == Some("Agent profile not found") <==> !isAdmin && caller.id !in dir.agentsByLinkedUser
    ensures r.Some? ==> r.value in {"Agent profile not found", "You are not assigned to this inquiry"}
  {
    if isAdmin then None
    else if caller.id !in dir.agentsByLinkedUser then Some("Agent profile not found")
    else
      var agent := dir.agentsByLinkedUser[caller.id];
      if inq.assignedAgent.None? || inq.assignedAgent.value.id != agent.id
      then Some("You are not assigned to this inquiry")
      else None
  }

  /** `sendNewInquiryNotifications`: the admin inbox always, and the
      assigned agent's inbox when that agent has a login account. */
  function NewInquiryBroadcasts(i: Inquiry, summary: InquiryDto): (r: seq<Broadcast>)
    ensures |r| == if AgentUserOf(i).Some? then 2 else 1
    ensures r[0].topic == AdminInquiriesTopic
    ensures AgentUserOf(i).Some? ==> r[1].topic == AgentInquiriesTopic(AgentUserOf(i).value)
    ensures forall k :: 0 <= k < |r| ==> r[k].payload == SummaryPayload(summary)
  {
    [Broadcast(AdminInquiriesTopic, SummaryPayload(summary))]
    + (if AgentUserOf(i).Some?
       then [Broadcast(AgentInquiriesTopic(AgentUserOf(i).value), SummaryPayload(summary))]
       else [])
  }

  /** `sendMessageNotification` for a user's follow-up: the admin thread,
      and the assigned agent's thread when that agent has a login account. */
  function UserReplyBroadcasts(i: Inquiry, m: MessageDto): (r: seq<Broadcast>)
    ensures |r| == if AgentUserOf(i).Some? then 2 else 1
    ensures r[0].topic == AdminThreadTopic(i.id)
    ensures AgentUserOf(i).Some? ==> r[1].topic == AgentThreadTopic(AgentUserOf(i).value, i.id)
    ensures forall k :: 0 <= k < |r| ==> r[k].payload == MessagePayload(m)
  {
    [Broadcast(AdminThreadTopic(i.id), MessagePayload(m))]
    + (if AgentUserOf(i).Some?
       then [Broadcast(AgentThreadTopic(AgentUserOf(i).value, i.id), MessagePayload(m))]
       else [])
  }

  /** `sendMessageNotification` for a staff reply: the inquiring user's thread only. */
  function StaffReplyBroadcasts(i: Inquiry, m: MessageDto): (r: seq<Broadcast>)
    ensures |r| == 1 && r[0].topic == UserThreadTopic(i.user.id, i.id)
    ensures r[0].payload == MessagePayload(m)
  {
    [Broadcast(UserThreadTopic(i.user.id, i.id), MessagePayload(m))]
  }

  /** `createInquiry`. The message text passes the `@NotBlank` request validation. */
  function CreateInquiry(db: Db, dir: Directory, caller: UserRecord, propertyId: nat, text: string, now: Time)
    : (r: Result<Step<InquiryDto>>)
    requires NotBlank(text)
    ensures r.Err? <==> propertyId !in dir.properties
    ensures r.Err? ==> r.message == "Property not found"
    ensures r.Ok? ==>
      var s, p, n := r.value, dir.properties[propertyId], |db.inquiries|;
      && |s.db.inquiries| == n + 1 && s.db.inquiries[..n] == db.inquiries
      && var i := s.db.inquiries[n];
      && i.id == n + 1 && i.user == caller && i.property == p
      && i.assignedAgent == p.assignedAgent && i.status == Pending
      && i.createdAt == now && i.lastMessageAt == now
      && i.lastReadAtUser.None? && i.lastReadAtAdmin.None?
      && s.db.messages == db.messages + [NewMessage(db, i.id, caller, text, now)]
      && s.value == ToDto(i, CreationPreview(text))
      && s.value.id == i.id && s.value.status == Pending && s.value.hasUnread
      && s.sent == NewInquiryBroadcasts(i, Summary(s.db.messages, i))
  {
    if propertyId !in dir.properties then Err("Property not found")
    else
      var property := dir.properties[propertyId];
      var draft := InquiryDraft(Some(caller), Some(property), property.assignedAgent, Some(Pending),
                                Some(now), None, None, Some(now));
      var inquiry := PersistInquiry(draft, |db.inquiries| + 1, now).value;
      var message := NewMessage(db, inquiry.id, caller, text, now);
      var db' := Db(db.inquiries + [inquiry], db.messages + [message]);
      Ok(Step(db', ToDto(inquiry, CreationPreview(message.text)),
              NewInquiryBroadcasts(inquiry, Summary(db'.messages, inquiry))))
  }

  /** `sendUserMessage`: a follow-up by the inquiry's owner. */
  function SendUserMessage(db: Db, dir: Directory, caller: UserRecord, inquiryId: nat, text: string, now: Time)
    : (r: Result<Step<MessageDto>>)
    requires NotBlank(text)
    ensures var found := FindByIdAndUserId(db.inquiries, inquiryId, caller.id);
      && (found.None? ==> r == Err("Inquiry not found or access denied"))
      && (found.Some? && found.value.status == Closed ==> r == Err("Cannot send messages to closed inquiries"))
      && (found.Some? && found.value.status != Closed ==> r.Ok?)
    ensures r.Ok? ==>
      var s, prior := r.value, FindByIdAndUserId(db.inquiries, inquiryId, caller.id).value;
      var i := prior.(status := Pending, lastMessageAt := now, lastReadAtUser := Some(now));
      var m := NewMessage(db, inquiryId, caller, text, now);
      && prior.status in {Pending, Replied}
      && s.db.inquiries == Save(db.inquiries, i)
      && s.db.messages == db.messages + [m]
      && s.value == ToMessageDto(m, dir)
      && s.sent == UserReplyBroadcasts(i, s.value)
  {
    var found := FindByIdAndUserId(db.inquiries, inquiryId, caller.id);
    if found.None? then Err("Inquiry not found or access denied")
    else
      var inquiry := found.value;
      if inquiry.status == Closed then Err("Cannot send messages to closed inquiries")
      else
        var message := NewMessage(db, inquiry.id, caller, text, now);
        var updated := inquiry.(
          lastMessageAt := now,
          status := if inquiry.status == Replied then Pending else inquiry.status,
          lastReadAtUser := Some(now));
        var dto := ToMessageDto(message, dir);
        Ok(Step(Db(Save(db.inquiries, updated), db.messages + [message]), dto,
                UserReplyBroadcasts(updated, dto)))
  }

  /** `replyToInquiry`: a reply by an admin, or by the assigned agent.
      Nothing here refuses a CLOSED inquiry: a reply reopens it as REPLIED. */
  function ReplyToInquiry(db: Db, dir: Directory, caller: UserRecord, isAdmin: bool, inquiryId: nat, text: string, now: Time)
    : (r: Result<Step<MessageDto>>)
    requires NotBlank(text)
    ensures var found := FindById(db.inquiries, inquiryId);
      && (found.None? ==> r == Err("Inquiry not found"))
      && (found.Some? ==> var denial := StaffDenial(dir, caller, isAdmin, found.value);
            (denial.Some? ==> r == Err(denial.value)) && (denial.None? ==> r.Ok?))
    ensures r.Ok? ==>
      var s, prior := r.value, FindById(db.inquiries, inquiryId).value;
      var i := prior.(lastMessageAt := now, status := Replied, lastReadAtAdmin := Some(now));
      var m := NewMessage(db, inquiryId, caller, text, now);
      && s.db.inquiries == Save(db.inquiries, i)
      && s.db.messages == db.messages + [m]
      && s.value == ToMessageDto(m, dir)
      && s.sent == StaffReplyBroadcasts(i, s.value)
  {
    var found := FindById(db.inquiries, inquiryId);
    if found.None? then Err("Inquiry not found")
    else
      var inquiry := found.value;
      var denial := StaffDenial(dir, caller, isAdmin, inquiry);
      if denial.Some? then Err(denial.value)
      else
        var message := NewMessage(db, inquiry.id, caller, text, now);
        var updated := inquiry.(lastMessageAt := now, status := Replied, lastReadAtAdmin := Some(now));
        var dto := ToMessageDto(message, dir);
        Ok(Step(Db(Save(db.inquiries, updated), db.messages + [message]), dto,
                StaffReplyBroadcasts(updated, dto)))
  }

  /** `closeInquiry`: same authorization as a reply; sets CLOSED from any
      status and touches nothing else. */
  function CloseInquiry(db: Db, dir: Directory, caller: UserRecord, isAdmin: bool, inquiryId: nat)
    : (r: Result<Step<()>>)
    ensures var found := FindById(db.inquiries, inquiryId);
      && (found.None? ==> r == Err("Inquiry not found"))
      && (found.Some? ==> var denial := StaffDenial(dir, caller, isAdmin, found.value);
            (denial.Some? ==> r == Err(denial.value)) && (denial.None? ==> r.Ok?))
    ensures r.Ok? ==>
      var prior := FindById(db.inquiries, inquiryId).value;
      r.value == Step(Db(Save(db.inquiries, prior.(status := Closed)), db.messages), (), [])
  {
    var found := FindById(db.inquiries, inquiryId);
    if found.None? then Err("Inquiry not found")
    else
      var inquiry := found.value;
      var denial := StaffDenial(dir, caller, isAdmin, inquiry);
      if denial.Some? then Err(denial.value)
      else Ok(Step(Db(Save(db.inquiries, inquiry.(status := Closed)), db.messages), (), []))
  }

  /** `reassignInquiry` (admin only): changes the assigned agent and
      tells the new agent, if it has a login account; the previous agent
      is not told. */
  function ReassignInquiry(db: Db, dir: Directory, inquiryId: nat, agentId: nat): (r: Result<Step<()>>)
    ensures FindById(db.inquiries, inquiryId).None? ==> r == Err("Inquiry not found")
    ensures FindById(db.inquiries, inquiryId).Some? && agentId !in dir.agents ==> r == Err("Agent not found")
    ensures r.Ok? <==> FindById(db.inquiries, inquiryId).Some? && agentId in dir.agents
    ensures r.Ok? ==>
      var prior, agent := FindById(db.inquiries, inquiryId).value, dir.agents[agentId];
      var i := prior.(assignedAgent := Some(agent));
      && r.value.db == Db(Save(db.inquiries, i), db.messages)
      && r.value.sent == (if agent.linkedUserId.Some?
                          then [Broadcast(AgentInquiriesTopic(agent.linkedUserId.value),
                                          SummaryPayload(Summary(db.messages, i)))]
                          else [])
  {
    var found := FindById(db.inquiries, inquiryId);
    if found.None? then Err("Inquiry not found")
    else if agentId !in dir.agents then Err("Agent not found")
    else
      var agent := dir.agents[agentId];
      var updated := found.value.(assignedAgent := Some(agent));
      var db' := Db(Save(db.inquiries, updated), db.messages);
      var sent := if agent.linkedUserId.Some?
        then [Broadcast(AgentInquiriesTopic(agent.linkedUserId.value), SummaryPayload(Summary(db'.messages, updated)))]
        else [];
      Ok(Step(db', (), sent))
  }

  /** `getInquiryMessages`: the owner reads the thread; marks it read on
      the user side. */
  function GetInquiryMessages(db: Db, dir: Directory, caller: UserRecord, inquiryId: nat, now: Time)
    : (r: Result<Step<seq<MessageDto>>>)
    ensures r.Err? <==> FindByIdAndUserId(db.inquiries, inquiryId, caller.id).None?
    ensures r.Err? ==> r.message == "Inquiry not found or access denied"
    ensures r.Ok? ==>
      var prior := FindByIdAndUserId(db.inquiries, inquiryId, caller.id).value;
      && r.value.db == Db(Save(db.inquiries, prior.(lastReadAtUser := Some(now))), db.messages)
      && r.value.value == ThreadView(db.messages, inquiryId, dir)
      && r.value.sent == []
  {
    var found := FindByIdAndUserId(db.inquiries, inquiryId, caller.id);
    if found.None? then Err("Inquiry not found or access denied")
    else
      var updated := found.value.(lastReadAtUser := Some(now));
      Ok(Step(Db(Save(db.inquiries, updated), db.messages), ThreadView(db.messages, inquiryId, dir), []))
  }

  /** `getInquiryMessagesAdmin`: no access check; marks the thread read on
      the admin/agent side. */
  function GetInquiryMessagesAdmin(db: Db, dir: Directory, inquiryId: nat, now: Time)
    : (r: Result<Step<seq<MessageDto>>>)
    ensures r.Err? <==> FindById(db.inquiries, inquiryId).None?
    ensures r.Err? ==> r.message == "Inquiry not found"
    ensures r.Ok? ==>
      var prior := FindById(db.inquiries, inquiryId).value;
      && r.value.db == Db(Save(db.inquiries, prior.(lastReadAtAdmin := Some(now))), db.messages)
      && r.value.value == ThreadView(db.messages, inquiryId, dir)
      && r.value.sent == []
  {
    var found := FindById(db.inquiries, inquiryId);
    if found.None? then Err("Inquiry not found")
    else
      var updated := found.value.(lastReadAtAdmin := Some(now));
      Ok(Step(Db(Save(db.inquiries, updated), db.messages), ThreadView(db.messages, inquiryId, dir), []))
  }

  /** `getInquiryMessagesAgent`: the assigned agent reads the thread;
      marks it read on the shared admin/agent side. */
  function GetInquiryMessagesAgent(db: Db, dir: Directory, caller: UserRecord, inquiryId: nat, now: Time)
    : (r: Result<Step<seq<MessageDto>>>)
    ensures caller.id !in dir.agentsByLinkedUser ==> r == Err("Agent profile not found")
    ensures caller.id in dir.agentsByLinkedUser ==>
      var found := FindByIdAndAssignedAgentId(db.inquiries, inquiryId, dir.agentsByLinkedUser[caller.id].id);
      && (found.None? ==> r == Err("Inquiry not found or not assigned to you"))
      && (found.Some? ==> r.Ok?)
      && (found.Some? ==> r.value.db == Db(Save(db.inquiries, found.value.(lastReadAtAdmin := Some(now))), db.messages))
      && (found.Some? ==> r.value.value == ThreadView(db.messages, inquiryId, dir) && r.value.sent == [])
  {
    if caller.id !in dir.agentsByLinkedUser then Err("Agent profile not found")
    else
      var agent := dir.agentsByLinkedUser[caller.id];
      var found := FindByIdAndAssignedAgentId(db.inquiries, inquiryId, agent.id);
      if found.None? then Err("Inquiry not found or not assigned to you")
      else
        var updated := found.value.(lastReadAtAdmin := Some(now));
        Ok(Step(Db(Save(db.inquiries, updated), db.messages), ThreadView(db.messages, inquiryId, dir), []))
  }

  /** The summaries of `rows`, in order: one per row, each of its own row,
      every row summarised, and newest-first rows give newest-first
      summaries. */
  function Summaries(db: Db, rows: seq<Inquiry>): (r: seq<InquiryDto>)
    ensures |r| == |rows|
    ensures forall k :: 0 <= k < |r| ==> r[k] == Summary(db.messages, rows[k])
    ensures forall x :: x in rows ==> Summary(db.messages, x) in r
    ensures forall d :: d in r ==> exists x :: x in rows && d == Summary(db.messages, x)
    ensures NewestFirst(rows) ==> SummariesNewestFirst(r)
  {
    seq(|rows|, k requires 0 <= k < |rows| => Summary(db.messages, rows[k]))
  }

  /** Summaries listed with the most recent activity first. */
  predicate SummariesNewestFirst(r: seq<InquiryDto>) {
    forall i, j :: 0 <= i < j < |r| ==> r[i].lastMessageAt >= r[j].lastMessageAt
  }

  /** `getMyInquiries`: a summary of each of the caller's inquiries and of
      nothing else, most recent activity first. */
  function GetMyInquiries(db: Db, caller: UserRecord): (r: seq<InquiryDto>)
    ensures |r| == Count(db.inquiries, OwnedBy(caller.id))
    ensures forall x :: x in db.inquiries && x.user.id == caller.id ==> Summary(db.messages, x) in r
    ensures forall d :: d in r ==>
      exists x :: x in db.inquiries && x.user.id == caller.id && d == Summary(db.messages, x)
    ensures forall k :: 0 <= k < |r| ==> r[k].userId == caller.id
    ensures SummariesNewestFirst(r)
  {
    var rows := FindByUserIdOrderByLastMessageAtDesc(db.inquiries, caller.id);
    Summaries(db, rows)
  }

  /** `getAllInquiries`: a summary of every inquiry, or of every inquiry
      with the given status, and of nothing else, most recent activity
      first. */
  function GetAllInquiries(db: Db, status: Option<InquiryStatus>): (r: seq<InquiryDto>)
    ensures status.None? ==> |r| == |db.inquiries|
    ensures status.Some? ==> |r| == CountByStatus(db.inquiries, status.value)
    ensures forall x :: x in db.inquiries && (status.None? || x.status == status.value) ==>
      Summary(db.messages, x) in r
    ensures forall d :: d in r ==> exists x :: && x in db.inquiries
                                              && (status.None? || x.status == status.value)
                                              && d == Summary(db.messages, x)
    ensures status.Some? ==> forall k :: 0 <= k < |r| ==> r[k].status == status.value
    ensures SummariesNewestFirst(r)
  {
    Summaries(db, AllRows(db.inquiries, status))
  }

  /** The rows `getAllInquiries` reads: the status finder's, or the whole
      table's. */
  function AllRows(rows: seq<Inquiry>, status: Option<InquiryStatus>): (r: seq<Inquiry>)
    ensures status.None? ==> |r| == |rows|
    ensures status.Some? ==> |r| == CountByStatus(rows, status.value)
    ensures forall x :: x in r <==> x in rows && (status.None? || x.status == status.value)
    ensures forall k :: 0 <= k < |r| ==> status.None? || r[k].status == status.value
    ensures NewestFirst(r)
  {
    if status.Some? then FindByStatusOrderByLastMessageAtDesc(rows, status.value)
    else
      var all := FindAllByOrderByLastMessageAtDesc(rows);
      assert |multiset(all)| == |multiset(rows)|;
      assert forall x :: x in all <==> x in multiset(all);
      all
  }

  /** `getAgentInquiries`: a summary of each inquiry assigned to the
      caller's agent profile, optionally of one status, and of nothing
      else, most recent activity first. */
  function GetAgentInquiries(db: Db, dir: Directory, caller: UserRecord, status: Option<InquiryStatus>)
    : (r: Result<seq<InquiryDto>>)
    ensures r.Err? <==> caller.id !in dir.agentsByLinkedUser
    ensures r.Err? ==> r.message == "Agent profile not found"
    ensures r.Ok? ==> var a := dir.agentsByLinkedUser[caller.id].id;
      && |r.value| == (if status.Some? then Count(db.inquiries, AssignedToWithStatus(a, status.value))
                       else Count(db.inquiries, AssignedTo(a)))
      && (forall x :: && x in db.inquiries && x.assignedAgent.Some? && x.assignedAgent.value.id == a
                      && (status.None? || x.status == status.value) ==>
            Summary(db.messages, x) in r.value)
      && (forall d :: d in r.value ==> SummarisesAgentRow(db, a, status, d))
    ensures r.Ok? ==> forall k :: 0 <= k < |r.value| ==>
      r.value[k].assignedAgentId == Some(dir.agentsByLinkedUser[caller.id].id)
    ensures r.Ok? && status.Some? ==> forall k :: 0 <= k < |r.value| ==> r.value[k].status == status.value
    ensures r.Ok? ==> SummariesNewestFirst(r.value)
  {
    if caller.id !in dir.agentsByLinkedUser then Err("Agent profile not found")
    else Ok(AgentSummaries(db, dir.agentsByLinkedUser[caller.id].id, status))
  }

  /** `d` summarises an inquiry assigned to agent `agentId`, of the given
      status when one is given. */
  ghost predicate SummarisesAgentRow(db: Db, agentId: nat, status: Option<InquiryStatus>, d: InquiryDto) {
    exists x :: && x in db.inquiries && x.assignedAgent.Some? && x.assignedAgent.value.id == agentId
      && (status.None? || x.status == status.value)
      && d == Summary(db.messages, x)
  }

  /** The list `getAgentInquiries` returns once the caller's agent profile
      `agentId` is known. */
  function AgentSummaries(db: Db, agentId: nat, status: Option<InquiryStatus>): (r: seq<InquiryDto>)
    ensures |r| == (if status.Some? then Count(db.inquiries, AssignedToWithStatus(agentId, status.value))
                    else Count(db.inquiries, AssignedTo(agentId)))
    ensures forall x :: && x in db.inquiries && x.assignedAgent.Some? && x.assignedAgent.value.id == agentId
                        && (status.None? || x.status == status.value) ==>
      Summary(db.messages, x) in r
    ensures forall d :: d in r ==> SummarisesAgentRow(db, agentId, status, d)
    ensures forall k :: 0 <= k < |r| ==> r[k].assignedAgentId == Some(agentId)
    ensures status.Some? ==> forall k :: 0 <= k < |r| ==> r[k].status == status.value
    ensures SummariesNewestFirst(r)
  {
    var rows := AgentRows(db.inquiries, agentId, status);
    AgentSummariesComeFromAgentRows(db, agentId, status);
    Summaries(db, rows)
  }

  /** Every summary an agent lists is of an inquiry assigned to that agent. */
  lemma AgentSummariesComeFromAgentRows(db: Db, agentId: nat, status: Option<InquiryStatus>)
    ensures forall d :: d in Summaries(db, AgentRows(db.inquiries, agentId, status)) ==>
      SummarisesAgentRow(db, agentId, status, d)
  {
    var rows := AgentRows(db.inquiries, agentId, status);
    forall d | d in Summaries(db, rows)
      ensures SummarisesAgentRow(db, agentId, status, d)
    {
      var x :| x in rows && d == Summary(db.messages, x);
      assert x in db.inquiries;
    }
  }

  /** The rows `getAgentInquiries` reads: those assigned to the agent,
      of the status when one is given. */
  function AgentRows(rows: seq<Inquiry>, agentId: nat, status: Option<InquiryStatus>): (r: seq<Inquiry>)
    ensures |r| == (if status.Some? then Count(rows, AssignedToWithStatus(agentId, status.value))
                    else Count(rows, AssignedTo(agentId)))
    ensures forall x :: x in r <==> && x in rows && x.assignedAgent.Some? && x.assignedAgent.value.id == agentId
                                    && (status.None? || x.status == status.value)
    ensures forall k :: 0 <= k < |r| ==> && r[k].assignedAgent.Some? && r[k].assignedAgent.value.id == agentId
                                         && (status.None? || r[k].status == status.value)
    ensures NewestFirst(r)
  {
    if status.Some?
    then FindByAssignedAgentIdAndStatusOrderByLastMessageAtDesc(rows, agentId, status.value)
    else FindByAssignedAgentIdOrderByLastMessageAtDesc(rows, agentId)
  }
}
