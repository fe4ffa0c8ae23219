/** The derived queries of the inquiry table. Each finder is a filter of
    the stored rows, sorted by `lastMessageAt` newest first where the
    query name asks for it; each counter counts the rows of a filter. */
module InquiryRepository {
  import opened Wrappers
  import opened InquiryModel
  import opened Ordering

  /** Ascending order of this key is descending order of `lastMessageAt`. */
  function NewestActivityFirst(i: Inquiry): int {
    -i.lastMessageAt
  }

  /** `s` lists the most recently active inquiry first. */
  predicate NewestFirst(s: seq<Inquiry>) {
    forall i, j :: 0 <= i < j < |s| ==> s[i].lastMessageAt >= s[j].lastMessageAt
  }

  /** No two rows share an id (the table's primary key). */
  predicate IdsUnique(rows: seq<Inquiry>) {
    forall i, j :: 0 <= i < |rows| && 0 <= j < |rows| && rows[i].id == rows[j].id ==> i == j
  }

  function WithId(id: nat): Inquiry -> bool {
    (i: Inquiry) => i.id == id
  }

  function AboutProperty(propertyId: nat): Inquiry -> bool {
    (i: Inquiry) => i.property.id == propertyId
  }

  function OwnedBy(userId: nat): Inquiry -> bool {
    (i: Inquiry) => i.user.id == userId
  }

  function HasStatus(status: InquiryStatus): Inquiry -> bool {
    (i: Inquiry) => i.status == status
  }

  /** The inner join on `assignedAgent`: an unassigned inquiry matches no agent. */
  function AssignedTo(agentId: nat): Inquiry -> bool {
    (i: Inquiry) => i.assignedAgent.Some? && i.assignedAgent.value.id == agentId
  }

  function AssignedToWithStatus(agentId: nat, status: InquiryStatus): Inquiry -> bool {
    (i: Inquiry) => i.assignedAgent.Some? && i.assignedAgent.value.id == agentId && i.status == status
  }

  /** The user has not seen the latest message: it is later than the
      user's read marker, or than the creation time when the user never
      opened the thread. */
  function UnreadForUser(userId: nat): Inquiry -> bool {
    (i: Inquiry) => i.user.id == userId && i.lastMessageAt > i.lastReadAtUser.GetOr(i.createdAt)
  }

  /** `findById`. */
  function FindById(rows: seq<Inquiry>, id: nat): (r: Option<Inquiry>)
    ensures r.Some? ==> r.value in rows && r.value.id == id
    ensures r.None? <==> forall k :: 0 <= k < |rows| ==> rows[k].id != id
  {
    First(rows, WithId(id))
  }

  /** `findByPropertyId`: no order is requested, so table order is kept. */
  function FindByPropertyId(rows: seq<Inquiry>, propertyId: nat): (r: seq<Inquiry>)
    ensures forall x :: multiset(r)[x] == if x.property.id == propertyId then multiset(rows)[x] else 0
  {
    Where(rows, AboutProperty(propertyId))
  }

  function FindByUserIdOrderByLastMessageAtDesc(rows: seq<Inquiry>, userId: nat): (r: seq<Inquiry>)
    ensures forall x :: multiset(r)[x] == if x.user.id == userId then multiset(rows)[x] else 0
    ensures forall x :: x in r <==> x in rows && x.user.id == userId
    ensures forall k :: 0 <= k < |r| ==> r[k].user.id == userId
    ensures |r| == Count(rows, OwnedBy(userId))
    ensures NewestFirst(r)
  {
    CountIsSizeOfWhere(rows, OwnedBy(userId));
    SortBy(Where(rows, OwnedBy(userId)), NewestActivityFirst)
  }

  function FindByStatusOrderByLastMessageAtDesc(rows: seq<Inquiry>, status: InquiryStatus): (r: seq<Inquiry>)
    ensures forall x :: multiset(r)[x] == if x.status == status then multiset(rows)[x] else 0
    ensures forall x :: x in r <==> x in rows && x.status == status
    ensures forall k :: 0 <= k < |r| ==> r[k].status == status
    ensures NewestFirst(r)
  {
    SortBy(Where(rows, HasStatus(status)), NewestActivityFirst)
  }

  function FindAllByOrderByLastMessageAtDesc(rows: seq<Inquiry>): (r: seq<Inquiry>)
    ensures multiset(r) == multiset(rows)
    ensures NewestFirst(r)
  {
    SortBy(rows, NewestActivityFirst)
  }

  function FindByAssignedAgentIdOrderByLastMessageAtDesc(rows: seq<Inquiry>, agentId: nat): (r: seq<Inquiry>)
    ensures forall x :: (multiset(r)[x] ==
      if x.assignedAgent.Some? && x.assignedAgent.value.id == agentId then multiset(rows)[x] else 0)
    ensures forall x :: x in r <==> x in rows && x.assignedAgent.Some? && x.assignedAgent.value.id == agentId
    ensures forall k :: 0 <= k < |r| ==> r[k].assignedAgent.Some? && r[k].assignedAgent.value.id == agentId
    ensures |r| == Count(rows, AssignedTo(agentId))
    ensures NewestFirst(r)
  {
    CountIsSizeOfWhere(rows, AssignedTo(agentId));
    SortBy(Where(rows, AssignedTo(agentId)), NewestActivityFirst)
  }

  function FindByAssignedAgentIdAndStatusOrderByLastMessageAtDesc(
    rows: seq<Inquiry>, agentId: nat, status: InquiryStatus): (r: seq<Inquiry>)
    ensures forall x :: (multiset(r)[x] ==
      if x.assignedAgent.Some? && x.assignedAgent.value.id == agentId && x.status == status
      then multiset(rows)[x] else 0)
    ensures forall x :: x in r <==>
      x in rows && x.assignedAgent.Some? && x.assignedAgent.value.id == agentId && x.status == status
    ensures forall k :: 0 <= k < |r| ==>
      r[k].assignedAgent.Some? && r[k].assignedAgent.value.id == agentId && r[k].status == status
    ensures |r| == Count(rows, AssignedToWithStatus(agentId, status))
    ensures NewestFirst(r)
  {
    CountIsSizeOfWhere(rows, AssignedToWithStatus(agentId, status));
    SortBy(Where(rows, AssignedToWithStatus(agentId, status)), NewestActivityFirst)
  }

  /** The ownership check `WHERE i.id = :inquiryId AND i.user.id = :userId`. */
  function FindByIdAndUserId(rows: seq<Inquiry>, id: nat, userId: nat): (r: Option<Inquiry>)
    ensures r.Some? ==> r.value in rows && r.value.id == id && r.value.user.id == userId
    ensures r.None? <==> forall k :: 0 <= k < |rows| ==> !(rows[k].id == id && rows[k].user.id == userId)
  {
    First(rows, (i: Inquiry) => i.id == id && i.user.id == userId)
  }

  /** The assignment check `WHERE i.id = :inquiryId AND i.assignedAgent.id = :agentId`. */
  function FindByIdAndAssignedAgentId(rows: seq<Inquiry>, id: nat, agentId: nat): (r: Option<Inquiry>)
    ensures r.Some? ==> r.value in rows && r.value.id == id
    ensures r.Some? ==> r.value.assignedAgent.Some? && r.value.assignedAgent.value.id == agentId
    ensures r.None? <==> forall k :: 0 <= k < |rows| ==>
      !(rows[k].id == id && rows[k].assignedAgent.Some? && rows[k].assignedAgent.value.id == agentId)
  {
    First(rows, (i: Inquiry) => i.id == id && i.assignedAgent.Some? && i.assignedAgent.value.id == agentId)
  }

  /** With unique ids, the ownership check finds a row exactly when the
      inquiry exists and belongs to the user, and then finds that row. */
  lemma OwnershipCheckMatchesLookup(rows: seq<Inquiry>, id: nat, userId: nat)
    requires IdsUnique(rows)
    ensures FindByIdAndUserId(rows, id, userId).Some? <==>
      FindById(rows, id).Some? && FindById(rows, id).value.user.id == userId
    ensures FindByIdAndUserId(rows, id, userId).Some? ==>
      FindByIdAndUserId(rows, id, userId) == FindById(rows, id)
  {
    var owned, byId := FindByIdAndUserId(rows, id, userId), FindById(rows, id);
    if owned.Some? {
      assert byId.Some?;
      UniqueIdsSameRow(rows, owned.value, byId.value);
    }
  }

  /** With unique ids, the assignment check finds a row exactly when the
      inquiry exists and is assigned to that agent; an unassigned inquiry
      is never found. */
  lemma AssignmentCheckMatchesLookup(rows: seq<Inquiry>, id: nat, agentId: nat)
    requires IdsUnique(rows)
    ensures FindByIdAndAssignedAgentId(rows, id, agentId).Some? <==>
      && FindById(rows, id).Some?
      && FindById(rows, id).value.assignedAgent.Some?
      && FindById(rows, id).value.assignedAgent.value.id == agentId
    ensures FindByIdAndAssignedAgentId(rows, id, agentId).Some? ==>
      FindByIdAndAssignedAgentId(rows, id, agentId) == FindById(rows, id)
  {
    var found, byId := FindByIdAndAssignedAgentId(rows, id, agentId), FindById(rows, id);
    if found.Some? {
      assert byId.Some?;
      UniqueIdsSameRow(rows, found.value, byId.value);
    }
  }

  lemma UniqueIdsSameRow(rows: seq<Inquiry>, a: Inquiry, b: Inquiry)
    requires IdsUnique(rows) && a in rows && b in rows && a.id == b.id
    ensures a == b
  {
    var i :| 0 <= i < |rows| && rows[i] == a;
    var j :| 0 <= j < |rows| && rows[j] == b;
    assert i == j;
  }

  /** `countUnreadForUser`: the user's inquiries with a message later than
      `COALESCE(lastReadAtUser, createdAt)`. */
  function CountUnreadForUser(rows: seq<Inquiry>, userId: nat): (n: nat)
    ensures n == |Where(rows, UnreadForUser(userId))|
    ensures n <= |FindByUserIdOrderByLastMessageAtDesc(rows, userId)|
  {
    CountIsSizeOfWhere(rows, UnreadForUser(userId));
    UnreadAmongOwned(rows, userId);
    Count(rows, UnreadForUser(userId))
  }

  lemma UnreadAmongOwned(rows: seq<Inquiry>, userId: nat)
    ensures |Where(rows, UnreadForUser(userId))| <= |Where(rows, OwnedBy(userId))|
  {
    var unread, owned := Where(rows, UnreadForUser(userId)), Where(rows, OwnedBy(userId));
    assert multiset(unread) <= multiset(owned);
    assert |multiset(unread)| <= |multiset(owned)| by {
      var extra := multiset(owned) - multiset(unread);
      assert multiset(owned) == multiset(unread) + extra;
    }
  }

  /** `countByStatus` agrees with the status finder: it is the size of the
      list the admin inbox shows for that status. */
  function CountByStatus(rows: seq<Inquiry>, status: InquiryStatus): (n: nat)
    ensures n == |FindByStatusOrderByLastMessageAtDesc(rows, status)|
  {
    CountIsSizeOfWhere(rows, HasStatus(status));
    Count(rows, HasStatus(status))
  }

  /** `save` on a stored inquiry: the row with its id is replaced. */
  function Save(rows: seq<Inquiry>, x: Inquiry): (r: seq<Inquiry>)
    ensures |r| == |rows|
    ensures forall k :: 0 <= k < |r| ==> r[k].id == rows[k].id
  {
    seq(|rows|, k requires 0 <= k < |rows| => if rows[k].id == x.id then x else rows[k])
  }

  /** After saving, looking the id up yields the saved row, and every
      other id yields what it yielded before. */
  lemma SaveThenFind(rows: seq<Inquiry>, x: Inquiry, id: nat)
    requires FindById(rows, x.id).Some?
    ensures FindById(Save(rows, x), x.id) == Some(x)
    ensures id != x.id ==> FindById(Save(rows, x), id) == FindById(rows, id)
  {
    SaveFindInduction(rows, x, x.id);
    SaveFindInduction(rows, x, id);
  }

  lemma {:induction false} SaveFindInduction(rows: seq<Inquiry>, x: Inquiry, id: nat)
    ensures FindById(Save(rows, x), id) ==
      if id == x.id && FindById(rows, id).Some? then Some(x) else FindById(rows, id)
  {
    if rows != [] {
      assert Save(rows, x)[1..] == Save(rows[1..], x);
      SaveFindInduction(rows[1..], x, id);
    }
  }

  /** After saving a row, the ownership check for it finds exactly that row. */
  lemma {:induction false} SaveThenFindOwned(rows: seq<Inquiry>, x: Inquiry)
    requires FindById(rows, x.id).Some?
    ensures FindByIdAndUserId(Save(rows, x), x.id, x.user.id) == Some(x)
  {
    if rows[0].id != x.id {
      assert Save(rows, x)[1..] == Save(rows[1..], x);
      SaveThenFindOwned(rows[1..], x);
    }
  }

  /** After saving a row, the assignment check for its agent finds exactly that row. */
  lemma {:induction false} SaveThenFindAssigned(rows: seq<Inquiry>, x: Inquiry)
    requires FindById(rows, x.id).Some? && x.assignedAgent.Some?
    ensures FindByIdAndAssignedAgentId(Save(rows, x), x.id, x.assignedAgent.value.id) == Some(x)
  {
    if rows[0].id != x.id {
      assert Save(rows, x)[1..] == Save(rows[1..], x);
      SaveThenFindAssigned(rows[1..], x);
    }
  }

  /** Saving the same row twice is saving it once. */
  lemma SaveIdempotent(rows: seq<Inquiry>, x: Inquiry)
    ensures Save(Save(rows, x), x) == Save(rows, x)
  {
  }

  lemma SaveKeepsIdsUnique(rows: seq<Inquiry>, x: Inquiry)
    requires IdsUnique(rows)
    ensures IdsUnique(Save(rows, x))
  {
  }
}
