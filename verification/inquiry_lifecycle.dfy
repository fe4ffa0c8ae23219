/** Properties that relate the inquiry operations to each other: the
    status machine they implement, who may perform them, the read markers
    and the admin-side unread flag, who receives each broadcast, and the
    table invariant they keep. */
module InquiryLifecycle {
  import opened Wrappers
  import opened JavaStrings
  import opened InquiryModel
  import opened InquiryRepository
  import opened InquiryMessageRepository
  import opened InquiryViews
  import opened InquiryService

  /** The events that act on one stored inquiry. */
  datatype Event = UserMessage | StaffReply | Close | Reassign | Read

  /** The status machine as the engine implements it: the status after
      `e` in status `s`, or `None` when the engine refuses `e`. Only a
      user message is refused on CLOSED; a staff reply leaves CLOSED. */
  function NextStatus(e: Event, s: InquiryStatus): Option<InquiryStatus> {
    match e
    case UserMessage => if s == Closed then None else Some(Pending)
    case StaffReply => Some(Replied)
    case Close => Some(Closed)
    case Reassign => Some(s)
    case Read => Some(s)
  }

  /** After `e`, the stored row `id` has the status the machine prescribes
      from `prior`. */
  predicate Follows(e: Event, prior: Inquiry, db': Db, id: nat) {
    NextStatus(e, prior.status).Some? && StoredStatus(db', id) == NextStatus(e, prior.status)
  }

  /** The status of the stored row `id`, if there is one. */
  function StoredStatus(db: Db, id: nat): Option<InquiryStatus> {
    var found := FindById(db.inquiries, id);
    if found.Some? then Some(found.value.status) else None
  }

  /** Saving the updated row of an existing inquiry realises a transition
      when the row carries the status the machine prescribes. */
  lemma SaveRealises(e: Event, prior: Inquiry, db: Db, x: Inquiry, messages: seq<InquiryMessage>)
    requires FindById(db.inquiries, x.id).Some?
    requires NextStatus(e, prior.status) == Some(x.status)
    ensures Follows(e, prior, Db(Save(db.inquiries, x), messages), x.id)
  {
    SaveThenFind(db.inquiries, x, x.id);
  }

  /** The caller's agent profile is the one the inquiry is assigned to. */
  predicate AssignedToCaller(dir: Directory, caller: UserRecord, i: Inquiry) {
    && caller.id in dir.agentsByLinkedUser
    && i.assignedAgent.Some?
    && i.assignedAgent.value.id == dir.agentsByLinkedUser[caller.id].id
  }

  /** A user follow-up: allowed exactly for the owner of a non-CLOSED
      inquiry, and then REPLIED or PENDING becomes PENDING. */
  lemma UserMessageTransition(db: Db, dir: Directory, caller: UserRecord, id: nat, text: string, now: Time)
    requires NotBlank(text) && IdsUnique(db.inquiries) && FindById(db.inquiries, id).Some?
    ensures var prior, r := FindById(db.inquiries, id).value, SendUserMessage(db, dir, caller, id, text, now);
      && (r.Ok? <==> prior.user.id == caller.id && NextStatus(UserMessage, prior.status).Some?)
      && (r.Ok? ==> Follows(UserMessage, prior, r.value.db, id))
  {
    var prior, r := FindById(db.inquiries, id).value, SendUserMessage(db, dir, caller, id, text, now);
    OwnershipCheckMatchesLookup(db.inquiries, id, caller.id);
    if r.Ok? {
      var x := prior.(status := Pending, lastMessageAt := now, lastReadAtUser := Some(now));
      SaveRealises(UserMessage, prior, db, x, r.value.db.messages);
    }
  }

  /** A staff reply by someone allowed to make it sets REPLIED from every
      status, CLOSED included. */
  lemma StaffReplyTransition(db: Db, dir: Directory, caller: UserRecord, isAdmin: bool, id: nat, text: string, now: Time)
    requires NotBlank(text) && FindById(db.inquiries, id).Some?
    ensures var prior, r := FindById(db.inquiries, id).value, ReplyToInquiry(db, dir, caller, isAdmin, id, text, now);
      && (r.Ok? <==> isAdmin || AssignedToCaller(dir, caller, prior))
      && (r.Ok? ==> Follows(StaffReply, prior, r.value.db, id))
  {
    var prior, r := FindById(db.inquiries, id).value, ReplyToInquiry(db, dir, caller, isAdmin, id, text, now);
    if r.Ok? {
      var x := prior.(lastMessageAt := now, status := Replied, lastReadAtAdmin := Some(now));
      SaveRealises(StaffReply, prior, db, x, r.value.db.messages);
    }
  }

  /** The engine does not treat CLOSED as terminal: an admin's reply to a
      closed inquiry is accepted and reopens it as REPLIED. */
  lemma StaffReplyReopensClosed(db: Db, dir: Directory, caller: UserRecord, id: nat, text: string, now: Time)
    requires NotBlank(text) && FindById(db.inquiries, id).Some?
    requires FindById(db.inquiries, id).value.status == Closed
    ensures var r := ReplyToInquiry(db, dir, caller, true, id, text, now);
      r.Ok? && FindById(r.value.db.inquiries, id).Some?
      && FindById(r.value.db.inquiries, id).value.status == Replied
  {
    StaffReplyTransition(db, dir, caller, true, id, text, now);
  }

  /** Closing by someone allowed to close sets CLOSED from every status,
      CLOSED included. */
  lemma CloseTransition(db: Db, dir: Directory, caller: UserRecord, isAdmin: bool, id: nat)
    requires FindById(db.inquiries, id).Some?
    ensures var prior, r := FindById(db.inquiries, id).value, CloseInquiry(db, dir, caller, isAdmin, id);
      && (r.Ok? <==> isAdmin || AssignedToCaller(dir, caller, prior))
      && (r.Ok? ==> Follows(Close, prior, r.value.db, id))
  {
    var prior, r := FindById(db.inquiries, id).value, CloseInquiry(db, dir, caller, isAdmin, id);
    if r.Ok? {
      SaveRealises(Close, prior, db, prior.(status := Closed), db.messages);
    }
  }

  /** Reassignment leaves the status alone. */
  lemma ReassignKeepsStatus(db: Db, dir: Directory, id: nat, agentId: nat)
    requires ReassignInquiry(db, dir, id, agentId).Ok?
    ensures Follows(Reassign, FindById(db.inquiries, id).value, ReassignInquiry(db, dir, id, agentId).value.db, id)
  {
    var prior := FindById(db.inquiries, id).value;
    SaveRealises(Reassign, prior, db, prior.(assignedAgent := Some(dir.agents[agentId])), db.messages);
  }

  /** Stamping a read marker on a stored row leaves its status alone. */
  lemma ReadMarkerKeepsStatus(db: Db, prior: Inquiry, x: Inquiry, db': Db)
    requires FindById(db.inquiries, prior.id) == Some(prior)
    requires x == prior.(lastReadAtUser := x.lastReadAtUser, lastReadAtAdmin := x.lastReadAtAdmin)
    requires db' == Db(Save(db.inquiries, x), db.messages)
    ensures Follows(Read, prior, db', prior.id)
  {
    SaveRealises(Read, prior, db, x, db.messages);
  }

  /** The three thread fetches leave the status alone. */
  lemma UserFetchKeepsStatus(db: Db, dir: Directory, caller: UserRecord, id: nat, now: Time)
    requires IdsUnique(db.inquiries) && GetInquiryMessages(db, dir, caller, id, now).Ok?
    ensures Follows(Read, FindById(db.inquiries, id).value, GetInquiryMessages(db, dir, caller, id, now).value.db, id)
  {
    OwnershipCheckMatchesLookup(db.inquiries, id, caller.id);
    var prior := FindById(db.inquiries, id).value;
    ReadMarkerKeepsStatus(db, prior, prior.(lastReadAtUser := Some(now)), GetInquiryMessages(db, dir, caller, id, now).value.db);
  }

  lemma AdminFetchKeepsStatus(db: Db, dir: Directory, id: nat, now: Time)
    requires GetInquiryMessagesAdmin(db, dir, id, now).Ok?
    ensures Follows(Read, FindById(db.inquiries, id).value, GetInquiryMessagesAdmin(db, dir, id, now).value.db, id)
  {
    var prior := FindById(db.inquiries, id).value;
    ReadMarkerKeepsStatus(db, prior, prior.(lastReadAtAdmin := Some(now)), GetInquiryMessagesAdmin(db, dir, id, now).value.db);
  }

  lemma AgentFetchKeepsStatus(db: Db, dir: Directory, caller: UserRecord, id: nat, now: Time)
    requires IdsUnique(db.inquiries) && GetInquiryMessagesAgent(db, dir, caller, id, now).Ok?
    ensures Follows(Read, FindById(db.inquiries, id).value, GetInquiryMessagesAgent(db, dir, caller, id, now).value.db, id)
  {
    AssignmentCheckMatchesLookup(db.inquiries, id, dir.agentsByLinkedUser[caller.id].id);
    var prior := FindById(db.inquiries, id).value;
    ReadMarkerKeepsStatus(db, prior, prior.(lastReadAtAdmin := Some(now)), GetInquiryMessagesAgent(db, dir, caller, id, now).value.db);
  }

  /** User-scoped operations: the owner is admitted to the thread, and
      anyone else is refused both reading and writing it. */
  lemma OwnerAccess(db: Db, dir: Directory, caller: UserRecord, id: nat, text: string, now: Time)
    requires NotBlank(text) && IdsUnique(db.inquiries) && FindById(db.inquiries, id).Some?
    ensures var prior := FindById(db.inquiries, id).value;
      && (GetInquiryMessages(db, dir, caller, id, now).Ok? <==> prior.user.id == caller.id)
      && (prior.user.id != caller.id ==>
            && GetInquiryMessages(db, dir, caller, id, now) == Err("Inquiry not found or access denied")
            && SendUserMessage(db, dir, caller, id, text, now) == Err("Inquiry not found or access denied"))
  {
    OwnershipCheckMatchesLookup(db.inquiries, id, caller.id);
  }

  /** Agent-scoped operations: an agent is admitted exactly to the
      inquiries assigned to its profile, for replying, closing and reading. */
  lemma AgentAccess(db: Db, dir: Directory, caller: UserRecord, id: nat, text: string, now: Time)
    requires NotBlank(text) && IdsUnique(db.inquiries) && FindById(db.inquiries, id).Some?
    ensures var prior := FindById(db.inquiries, id).value;
      && (ReplyToInquiry(db, dir, caller, false, id, text, now).Ok? <==> AssignedToCaller(dir, caller, prior))
      && (CloseInquiry(db, dir, caller, false, id).Ok? <==> AssignedToCaller(dir, caller, prior))
      && (GetInquiryMessagesAgent(db, dir, caller, id, now).Ok? <==> AssignedToCaller(dir, caller, prior))
  {
    if caller.id in dir.agentsByLinkedUser {
      AssignmentCheckMatchesLookup(db.inquiries, id, dir.agentsByLinkedUser[caller.id].id);
    }
  }

  /** Admin-scoped operations are never refused on an existing inquiry. */
  lemma AdminNeverDenied(db: Db, dir: Directory, caller: UserRecord, id: nat, text: string, now: Time)
    requires NotBlank(text) && FindById(db.inquiries, id).Some?
    ensures ReplyToInquiry(db, dir, caller, true, id, text, now).Ok?
    ensures CloseInquiry(db, dir, caller, true, id).Ok?
    ensures GetInquiryMessagesAdmin(db, dir, id, now).Ok?
  {
  }

  /** Reading a thread twice at the same instant is reading it once. */
  lemma UserFetchIdempotent(db: Db, dir: Directory, caller: UserRecord, id: nat, now: Time)
    requires GetInquiryMessages(db, dir, caller, id, now).Ok?
    ensures var once := GetInquiryMessages(db, dir, caller, id, now).value;
      GetInquiryMessages(once.db, dir, caller, id, now) == Ok(once)
  {
    var prior := FindByIdAndUserId(db.inquiries, id, caller.id).value;
    var x := prior.(lastReadAtUser := Some(now));
    SaveThenFindOwned(db.inquiries, x);
    SaveIdempotent(db.inquiries, x);
  }

  lemma AdminFetchIdempotent(db: Db, dir: Directory, id: nat, now: Time)
    requires GetInquiryMessagesAdmin(db, dir, id, now).Ok?
    ensures var once := GetInquiryMessagesAdmin(db, dir, id, now).value;
      GetInquiryMessagesAdmin(once.db, dir, id, now) == Ok(once)
  {
    var prior := FindById(db.inquiries, id).value;
    var x := prior.(lastReadAtAdmin := Some(now));
    SaveThenFind(db.inquiries, x, id);
    SaveIdempotent(db.inquiries, x);
  }

  lemma AgentFetchIdempotent(db: Db, dir: Directory, caller: UserRecord, id: nat, now: Time)
    requires GetInquiryMessagesAgent(db, dir, caller, id, now).Ok?
    ensures var once := GetInquiryMessagesAgent(db, dir, caller, id, now).value;
      GetInquiryMessagesAgent(once.db, dir, caller, id, now) == Ok(once)
  {
    var agent := dir.agentsByLinkedUser[caller.id];
    var prior := FindByIdAndAssignedAgentId(db.inquiries, id, agent.id).value;
    var x := prior.(lastReadAtAdmin := Some(now));
    SaveThenFindAssigned(db.inquiries, x);
    SaveIdempotent(db.inquiries, x);
  }

  /** Admin and agent views share one read marker: when the assigned agent
      reads a thread, the stored state is exactly what an admin read at the
      same instant would leave. */
  lemma AgentAndAdminShareReadMarker(db: Db, dir: Directory, caller: UserRecord, id: nat, now: Time)
    requires IdsUnique(db.inquiries)
    requires GetInquiryMessagesAgent(db, dir, caller, id, now).Ok?
    ensures GetInquiryMessagesAgent(db, dir, caller, id, now) == GetInquiryMessagesAdmin(db, dir, id, now)
  {
    AssignmentCheckMatchesLookup(db.inquiries, id, dir.agentsByLinkedUser[caller.id].id);
  }

  /** After a staff reply, the thread is read on the admin side. */
  lemma ReplyLeavesNothingUnread(db: Db, dir: Directory, caller: UserRecord, isAdmin: bool, id: nat, text: string, now: Time)
    requires NotBlank(text)
    requires ReplyToInquiry(db, dir, caller, isAdmin, id, text, now).Ok?
    ensures var db' := ReplyToInquiry(db, dir, caller, isAdmin, id, text, now).value.db;
      FindById(db'.inquiries, id).Some? && !HasUnread(FindById(db'.inquiries, id).value)
  {
    var prior := FindById(db.inquiries, id).value;
    SaveThenFind(db.inquiries, prior.(lastMessageAt := now, status := Replied, lastReadAtAdmin := Some(now)), id);
  }

  /** After a user follow-up at `now`, the admin side has something
      unread exactly when it never read the thread or last read it before
      `now`; the user side is marked read. */
  lemma UserMessageUnreadForStaff(db: Db, dir: Directory, caller: UserRecord, id: nat, text: string, now: Time)
    requires NotBlank(text) && IdsUnique(db.inquiries)
    requires SendUserMessage(db, dir, caller, id, text, now).Ok?
    ensures var prior := FindById(db.inquiries, id).value;
      var db' := SendUserMessage(db, dir, caller, id, text, now).value.db;
      && FindById(db'.inquiries, id).Some?
      && FindById(db'.inquiries, id).value.lastReadAtUser == Some(now)
      && FindById(db'.inquiries, id).value.lastReadAtAdmin == prior.lastReadAtAdmin
      && (HasUnread(FindById(db'.inquiries, id).value) <==>
            prior.lastReadAtAdmin.None? || now > prior.lastReadAtAdmin.value)
  {
    OwnershipCheckMatchesLookup(db.inquiries, id, caller.id);
    var prior := FindById(db.inquiries, id).value;
    SaveThenFind(db.inquiries, prior.(status := Pending, lastMessageAt := now, lastReadAtUser := Some(now)), id);
  }

  /** After an admin reads a thread at `now`, it shows unread only for a
      message stamped later than `now`. */
  lemma AdminFetchClearsUnread(db: Db, dir: Directory, id: nat, now: Time)
    requires GetInquiryMessagesAdmin(db, dir, id, now).Ok?
    ensures var prior := FindById(db.inquiries, id).value;
      var db' := GetInquiryMessagesAdmin(db, dir, id, now).value.db;
      && FindById(db'.inquiries, id).Some?
      && (HasUnread(FindById(db'.inquiries, id).value) <==> prior.lastMessageAt > now)
  {
    var prior := FindById(db.inquiries, id).value;
    SaveThenFind(db.inquiries, prior.(lastReadAtAdmin := Some(now)), id);
  }

  // What the lists show.

  /** A list of summaries has an entry with id `id` exactly when the rows
      it summarises have a row with that id. */
  lemma SummaryIdsAreRowIds(db: Db, rows: seq<Inquiry>, id: nat)
    ensures (exists d :: d in Summaries(db, rows) && d.id == id) <==>
      exists k :: 0 <= k < |rows| && rows[k].id == id
  {
    var r := Summaries(db, rows);
    if k :| 0 <= k < |rows| && rows[k].id == id {
      assert r[k] in r && r[k].id == id;
    }
    if d :| d in r && d.id == id {
      var k :| 0 <= k < |r| && r[k] == d;
      assert rows[k].id == id;
    }
  }

  /** Summaries of a status filter of some rows are the status filter of
      the summaries of those rows. */
  lemma SummariesOfStatusFilter(db: Db, all: seq<Inquiry>, some: seq<Inquiry>, s: InquiryStatus, d: InquiryDto)
    requires forall x :: x in some <==> x in all && x.status == s
    ensures d in Summaries(db, some) <==> d in Summaries(db, all) && d.status == s
  {
    if d in Summaries(db, some) {
      var x :| x in some && d == Summary(db.messages, x);
      assert Summary(db.messages, x) in Summaries(db, all);
    }
    if d in Summaries(db, all) && d.status == s {
      var x :| x in all && d == Summary(db.messages, x);
      assert Summary(db.messages, x) in Summaries(db, some);
    }
  }

  /** The caller's list shows exactly the inquiries the caller may open:
      an inquiry id appears in `getMyInquiries` exactly when the owner's
      thread fetch of that id succeeds. */
  lemma MyInquiriesMatchOwnerAccess(db: Db, dir: Directory, caller: UserRecord, id: nat, now: Time)
    ensures GetInquiryMessages(db, dir, caller, id, now).Ok? <==>
      exists d :: d in GetMyInquiries(db, caller) && d.id == id
  {
    var rows := FindByUserIdOrderByLastMessageAtDesc(db.inquiries, caller.id);
    SummaryIdsAreRowIds(db, rows, id);
    OwnedRowWithId(db.inquiries, rows, caller.id, id);
  }

  /** The caller's rows have a row with id `id` exactly when the ownership
      check of that id succeeds. */
  lemma OwnedRowWithId(table: seq<Inquiry>, rows: seq<Inquiry>, userId: nat, id: nat)
    requires forall x :: x in rows <==> x in table && x.user.id == userId
    ensures (exists k :: 0 <= k < |rows| && rows[k].id == id) <==> FindByIdAndUserId(table, id, userId).Some?
  {
    var found := FindByIdAndUserId(table, id, userId);
    if found.Some? {
      var k :| 0 <= k < |rows| && rows[k] == found.value;
    }
    if k :| 0 <= k < |rows| && rows[k].id == id {
      var j :| 0 <= j < |table| && table[j] == rows[k];
    }
  }

  /** The admin list shows exactly the inquiries the admin fetch opens. */
  lemma AllInquiriesMatchAdminAccess(db: Db, dir: Directory, id: nat, now: Time)
    ensures GetInquiryMessagesAdmin(db, dir, id, now).Ok? <==>
      exists d :: d in GetAllInquiries(db, None) && d.id == id
  {
    var rows := AllRows(db.inquiries, None);
    SummaryIdsAreRowIds(db, rows, id);
    RowWithId(db.inquiries, rows, id);
  }

  /** Rows holding the same inquiries as the table have a row with id
      `id` exactly when the lookup by id finds one. */
  lemma RowWithId(table: seq<Inquiry>, rows: seq<Inquiry>, id: nat)
    requires forall x :: x in rows <==> x in table
    ensures (exists k :: 0 <= k < |rows| && rows[k].id == id) <==> FindById(table, id).Some?
  {
    var found := FindById(table, id);
    if found.Some? {
      var k :| 0 <= k < |rows| && rows[k] == found.value;
    }
    if k :| 0 <= k < |rows| && rows[k].id == id {
      assert rows[k] in rows;
      var j :| 0 <= j < |table| && table[j] == rows[k];
    }
  }

  /** An agent's list shows exactly the inquiries the agent fetch opens. */
  lemma AgentInquiriesMatchAgentAccess(db: Db, dir: Directory, caller: UserRecord, id: nat, now: Time)
    ensures GetInquiryMessagesAgent(db, dir, caller, id, now).Ok? <==>
      && GetAgentInquiries(db, dir, caller, None).Ok?
      && exists d :: d in GetAgentInquiries(db, dir, caller, None).value && d.id == id
  {
    if caller.id in dir.agentsByLinkedUser {
      var a := dir.agentsByLinkedUser[caller.id].id;
      var rows := AgentRows(db.inquiries, a, None);
      SummaryIdsAreRowIds(db, rows, id);
      AssignedRowWithId(db.inquiries, rows, a, id);
    }
  }

  /** An agent's rows have a row with id `id` exactly when the assignment
      check of that id succeeds. */
  lemma AssignedRowWithId(table: seq<Inquiry>, rows: seq<Inquiry>, agentId: nat, id: nat)
    requires forall x :: x in rows <==> x in table && x.assignedAgent.Some? && x.assignedAgent.value.id == agentId
    ensures (exists k :: 0 <= k < |rows| && rows[k].id == id) <==> FindByIdAndAssignedAgentId(table, id, agentId).Some?
  {
    var found := FindByIdAndAssignedAgentId(table, id, agentId);
    if found.Some? {
      var k :| 0 <= k < |rows| && rows[k] == found.value;
    }
    if k :| 0 <= k < |rows| && rows[k].id == id {
      var j :| 0 <= j < |table| && table[j] == rows[k];
    }
  }

  /** The status filter of the admin list is a filter of the full list:
      a summary is listed for status `s` exactly when the unfiltered list
      has it with status `s`. */
  lemma AllInquiriesStatusFilter(db: Db, s: InquiryStatus, d: InquiryDto)
    ensures d in GetAllInquiries(db, Some(s)) <==> d in GetAllInquiries(db, None) && d.status == s
  {
    SummariesOfStatusFilter(db, AllRows(db.inquiries, None), AllRows(db.inquiries, Some(s)), s, d);
  }

  /** Likewise for an agent's list. */
  lemma AgentInquiriesStatusFilter(db: Db, dir: Directory, caller: UserRecord, s: InquiryStatus, d: InquiryDto)
    requires caller.id in dir.agentsByLinkedUser
    ensures d in GetAgentInquiries(db, dir, caller, Some(s)).value <==>
      d in GetAgentInquiries(db, dir, caller, None).value && d.status == s
  {
    var a := dir.agentsByLinkedUser[caller.id].id;
    SummariesOfStatusFilter(db, AgentRows(db.inquiries, a, None), AgentRows(db.inquiries, a, Some(s)), s, d);
  }

  // Who hears about what.

  /** The topics of a sequence of broadcasts. */
  function Topics(sent: seq<Broadcast>): set<string> {
    set k | 0 <= k < |sent| :: sent[k].topic
  }

  /** A new inquiry is announced to staff only: always to the admin inbox,
      and to an agent's inbox exactly when that agent's login account is
      the one linked to the property's agent. */
  lemma NewInquiryAudience(db: Db, dir: Directory, caller: UserRecord, propertyId: nat, text: string, now: Time, u: nat)
    requires NotBlank(text)
    requires CreateInquiry(db, dir, caller, propertyId, text, now).Ok?
    ensures var sent, p := CreateInquiry(db, dir, caller, propertyId, text, now).value.sent, dir.properties[propertyId];
      && (forall t :: t in Topics(sent) ==> IsStaffTopic(t))
      && AdminInquiriesTopic in Topics(sent)
      && (AgentInquiriesTopic(u) in Topics(sent) <==>
            p.assignedAgent.Some? && p.assignedAgent.value.linkedUserId == Some(u))
  {
    var s := CreateInquiry(db, dir, caller, propertyId, text, now).value;
    var i := s.db.inquiries[|db.inquiries|];
    assert i.assignedAgent == dir.properties[propertyId].assignedAgent;
    NewInquiryBroadcastsAudience(i, s.value, Summary(s.db.messages, i), u);
  }

  /** The audience of `sendNewInquiryNotifications` for one inquiry. */
  lemma NewInquiryBroadcastsAudience(i: Inquiry, dto: InquiryDto, summary: InquiryDto, u: nat)
    ensures var sent := NewInquiryBroadcasts(i, summary);
      && (forall t :: t in Topics(sent) ==> IsStaffTopic(t))
      && AdminInquiriesTopic in Topics(sent)
      && (AgentInquiriesTopic(u) in Topics(sent) <==> AgentUserOf(i) == Some(u))
  {
    NewInquiryTopics(i, summary);
    TopicFamilies(0, u, i.id);
    if AgentUserOf(i).Some? {
      var v := AgentUserOf(i).value;
      TopicFamilies(0, v, i.id);
      InboxTopicsDistinct(u, v);
    } else {
      InboxTopicsDistinct(u, u);
    }
  }

  /** The topics `sendNewInquiryNotifications` publishes on. */
  lemma NewInquiryTopics(i: Inquiry, summary: InquiryDto)
    ensures Topics(NewInquiryBroadcasts(i, summary)) ==
      {AdminInquiriesTopic} + (if AgentUserOf(i).Some? then {AgentInquiriesTopic(AgentUserOf(i).value)} else {})
  {
    var sent := NewInquiryBroadcasts(i, summary);
    assert sent[0].topic == AdminInquiriesTopic;
    if AgentUserOf(i).Some? {
      assert sent[1].topic == AgentInquiriesTopic(AgentUserOf(i).value);
    }
  }

  /** A user follow-up is broadcast to staff only: always to the admin
      view of the thread, and to an agent's view of it exactly when that
      agent's login account is linked to the inquiry's assigned agent. */
  lemma UserMessageAudience(db: Db, dir: Directory, caller: UserRecord, id: nat, text: string, now: Time, u: nat)
    requires NotBlank(text)
    requires SendUserMessage(db, dir, caller, id, text, now).Ok?
    ensures var sent, prior := SendUserMessage(db, dir, caller, id, text, now).value.sent,
                               FindByIdAndUserId(db.inquiries, id, caller.id).value;
      && AdminThreadTopic(id) in Topics(sent)
      && (forall t :: t in Topics(sent) ==> IsStaffTopic(t))
      && (AgentThreadTopic(u, id) in Topics(sent) <==> AgentUserOf(prior) == Some(u))
  {
    var s := SendUserMessage(db, dir, caller, id, text, now).value;
    var prior := FindByIdAndUserId(db.inquiries, id, caller.id).value;
    var i := prior.(lastMessageAt := now, status := Pending, lastReadAtUser := Some(now));
    assert AgentUserOf(i) == AgentUserOf(prior) && i.id == id;
    UserReplyBroadcastsAudience(i, s.value, u);
  }

  /** The audience of `sendMessageNotification` for a user's follow-up. */
  lemma UserReplyBroadcastsAudience(i: Inquiry, m: MessageDto, u: nat)
    ensures var sent := UserReplyBroadcasts(i, m);
      && AdminThreadTopic(i.id) in Topics(sent)
      && (forall t :: t in Topics(sent) ==> IsStaffTopic(t))
      && (AgentThreadTopic(u, i.id) in Topics(sent) <==> AgentUserOf(i) == Some(u))
  {
    var sent := UserReplyBroadcasts(i, m);
    TopicFamilies(0, u, i.id);
    assert AgentThreadTopic(u, i.id) != AdminThreadTopic(i.id) by {
      assert AgentThreadTopic(u, i.id)[8] == 'g' && AdminThreadTopic(i.id)[8] == 'd';
    }
    if AgentUserOf(i).Some? {
      var v := AgentUserOf(i).value;
      TopicFamilies(0, v, i.id);
      assert Topics(sent) == {AdminThreadTopic(i.id), AgentThreadTopic(v, i.id)};
      if AgentThreadTopic(u, i.id) == AgentThreadTopic(v, i.id) {
        AgentThreadTopicInjective(u, i.id, v, i.id);
      }
    } else {
      assert Topics(sent) == {AdminThreadTopic(i.id)};
    }
  }

  /** A staff reply is broadcast to one topic only: the inquiring user's
      view of that thread, which no other user listens on. */
  lemma StaffReplyAudience(db: Db, dir: Directory, caller: UserRecord, isAdmin: bool, id: nat, text: string, now: Time, other: nat)
    requires NotBlank(text)
    requires ReplyToInquiry(db, dir, caller, isAdmin, id, text, now).Ok?
    ensures var sent, owner := ReplyToInquiry(db, dir, caller, isAdmin, id, text, now).value.sent,
                               FindById(db.inquiries, id).value.user.id;
      && Topics(sent) == {UserThreadTopic(owner, id)}
      && IsUserTopic(UserThreadTopic(owner, id))
      && (other != owner ==> UserThreadTopic(other, id) !in Topics(sent))
  {
    var sent := ReplyToInquiry(db, dir, caller, isAdmin, id, text, now).value.sent;
    var owner := FindById(db.inquiries, id).value.user.id;
    assert |sent| == 1 && sent[0].topic == UserThreadTopic(owner, id);
    assert Topics(sent) == {UserThreadTopic(owner, id)};
    TopicFamilies(owner, 0, id);
    if UserThreadTopic(other, id) == UserThreadTopic(owner, id) {
      UserThreadTopicInjective(other, id, owner, id);
    }
  }

  /** Reassignment tells no agent but the new one: the previously assigned
      agent's inbox is not among the topics unless it is the new agent's. */
  lemma ReassignTellsOnlyNewAgent(db: Db, dir: Directory, id: nat, agentId: nat, u: nat)
    requires ReassignInquiry(db, dir, id, agentId).Ok?
    ensures var sent := ReassignInquiry(db, dir, id, agentId).value.sent;
      AgentInquiriesTopic(u) in Topics(sent) <==> dir.agents[agentId].linkedUserId == Some(u)
  {
    var agent := dir.agents[agentId];
    var sent := ReassignInquiry(db, dir, id, agentId).value.sent;
    if agent.linkedUserId.Some? {
      assert sent[0].topic == AgentInquiriesTopic(agent.linkedUserId.value);
      if AgentInquiriesTopic(u) in Topics(sent) {
        AgentInquiriesTopicInjective(u, agent.linkedUserId.value);
      }
    }
  }

  // Creation.

  /** A created inquiry's thread is its first message alone, so the
      summary broadcast to staff previews that message; it agrees with the
      preview returned to the creator exactly when the text is at most 100
      characters, and otherwise adds "...". */
  lemma CreatedThreadIsFirstMessage(db: Db, dir: Directory, caller: UserRecord, propertyId: nat, text: string, now: Time)
    requires NotBlank(text) && Valid(db)
    requires CreateInquiry(db, dir, caller, propertyId, text, now).Ok?
    ensures var s := CreateInquiry(db, dir, caller, propertyId, text, now).value;
      var i := s.db.inquiries[|db.inquiries|];
      && FindByInquiryIdOrderByCreatedAtAsc(s.db.messages, i.id) == [NewMessage(db, i.id, caller, text, now)]
      && s.sent[0].payload.SummaryPayload?
      && (s.sent[0].payload.summary.lastMessagePreview == s.value.lastMessagePreview <==> |text| <= PreviewLength)
  {
    var s := CreateInquiry(db, dir, caller, propertyId, text, now).value;
    var i := s.db.inquiries[|db.inquiries|];
    var m := NewMessage(db, i.id, caller, text, now);
    FirstMessageIsWholeThread(db.messages, m);
    PreviewsAgreeOnlyWhenShort([m]);
  }

  // The table invariant.

  /** Every operation keeps identity keys sequential and every message
      attached to a stored inquiry. */
  lemma CreateKeepsValid(db: Db, dir: Directory, caller: UserRecord, propertyId: nat, text: string, now: Time)
    requires Valid(db) && NotBlank(text)
    requires CreateInquiry(db, dir, caller, propertyId, text, now).Ok?
    ensures Valid(CreateInquiry(db, dir, caller, propertyId, text, now).value.db)
  {
    var db' := CreateInquiry(db, dir, caller, propertyId, text, now).value.db;
    var n := |db.inquiries|;
    var i := db'.inquiries[n];
    assert db'.inquiries == db.inquiries + [i];
    assert db'.messages == db.messages + [NewMessage(db, i.id, caller, text, now)];
    AppendKeepsValid(db, i, NewMessage(db, i.id, caller, text, now));
  }

  /** Appending the next inquiry row and a message of a stored thread
      keeps the invariant. */
  lemma AppendKeepsValid(db: Db, i: Inquiry, m: InquiryMessage)
    requires Valid(db) && i.id == |db.inquiries| + 1
    requires m.id == |db.messages| + 1 && 1 <= m.inquiryId <= |db.inquiries| + 1
    ensures Valid(Db(db.inquiries + [i], db.messages + [m]))
  {
  }

  /** Rewriting one inquiry row keeps the invariant. */
  lemma SaveKeepsValid(db: Db, x: Inquiry)
    requires Valid(db)
    ensures Valid(Db(Save(db.inquiries, x), db.messages))
  {
  }

  lemma UserMessageKeepsValid(db: Db, dir: Directory, caller: UserRecord, id: nat, text: string, now: Time)
    requires Valid(db) && NotBlank(text)
    requires SendUserMessage(db, dir, caller, id, text, now).Ok?
    ensures Valid(SendUserMessage(db, dir, caller, id, text, now).value.db)
  {
    var prior := FindByIdAndUserId(db.inquiries, id, caller.id).value;
    assert prior in db.inquiries;
  }

  lemma ReplyKeepsValid(db: Db, dir: Directory, caller: UserRecord, isAdmin: bool, id: nat, text: string, now: Time)
    requires Valid(db) && NotBlank(text)
    requires ReplyToInquiry(db, dir, caller, isAdmin, id, text, now).Ok?
    ensures Valid(ReplyToInquiry(db, dir, caller, isAdmin, id, text, now).value.db)
  {
    assert FindById(db.inquiries, id).value in db.inquiries;
  }

  /** Closing, reassigning and reading rewrite one inquiry row and no message. */
  lemma CloseKeepsValid(db: Db, dir: Directory, caller: UserRecord, isAdmin: bool, id: nat)
    requires Valid(db) && CloseInquiry(db, dir, caller, isAdmin, id).Ok?
    ensures Valid(CloseInquiry(db, dir, caller, isAdmin, id).value.db)
  {
    SaveKeepsValid(db, FindById(db.inquiries, id).value.(status := Closed));
  }

  lemma ReassignKeepsValid(db: Db, dir: Directory, id: nat, agentId: nat)
    requires Valid(db) && ReassignInquiry(db, dir, id, agentId).Ok?
    ensures Valid(ReassignInquiry(db, dir, id, agentId).value.db)
  {
    SaveKeepsValid(db, FindById(db.inquiries, id).value.(assignedAgent := Some(dir.agents[agentId])));
  }

  lemma FetchesKeepValid(db: Db, dir: Directory, caller: UserRecord, id: nat, now: Time)
    requires Valid(db)
    ensures var r := GetInquiryMessages(db, dir, caller, id, now); r.Ok? ==> Valid(r.value.db)
    ensures var r := GetInquiryMessagesAdmin(db, dir, id, now); r.Ok? ==> Valid(r.value.db)
    ensures var r := GetInquiryMessagesAgent(db, dir, caller, id, now); r.Ok? ==> Valid(r.value.db)
  {
    var r := GetInquiryMessages(db, dir, caller, id, now);
    if r.Ok? {
      SaveKeepsValid(db, FindByIdAndUserId(db.inquiries, id, caller.id).value.(lastReadAtUser := Some(now)));
    }
    var a := GetInquiryMessagesAdmin(db, dir, id, now);
    if a.Ok? {
      SaveKeepsValid(db, FindById(db.inquiries, id).value.(lastReadAtAdmin := Some(now)));
    }
    var g := GetInquiryMessagesAgent(db, dir, caller, id, now);
    if g.Ok? {
      var agent := dir.agentsByLinkedUser[caller.id];
      SaveKeepsValid(db, FindByIdAndAssignedAgentId(db.inquiries, id, agent.id).value.(lastReadAtAdmin := Some(now)));
    }
  }
}
