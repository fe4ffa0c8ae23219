/** What the inquiry service shows and broadcasts: the summary and message
    views, the preview text, the admin-side unread flag, the sender's
    display name, and the broadcast topic names. */
module InquiryViews {
  import opened Wrappers
  import opened JavaStrings
  import opened InquiryModel
  import opened InquiryMessageRepository

  /** The lookups the service makes through collaborating repositories,
      as tables: users by id, properties by id, agents by id, and agents
      by the id of their linked login account. */
  datatype Directory = Directory(
    users: map<nat, UserRecord>,
    properties: map<nat, PropertyRecord>,
    agents: map<nat, AgentRecord>,
    agentsByLinkedUser: map<nat, AgentRecord>)

  datatype InquiryDto = InquiryDto(
    id: nat,
    userId: nat,
    userName: string,
    propertyId: nat,
    propertyTitle: string,
    propertyAddress: string,
    assignedAgentId: Option<nat>,
    assignedAgentName: Option<string>,
    status: InquiryStatus,
    lastMessagePreview: string,
    lastMessageAt: Time,
    createdAt: Time,
    hasUnread: bool)

  datatype MessageDto = MessageDto(
    id: nat,
    senderId: nat,
    senderName: string,
    senderRole: Role,
    text: string,
    createdAt: Time)

  /** The most characters of a message a preview shows. */
  const PreviewLength := 100
  const Ellipsis := "..."

  /** The preview returned right after creation: the first message cut to
      at most 100 characters, never followed by an ellipsis. */
  function CreationPreview(text: string): (r: string)
    ensures |r| <= PreviewLength && r <= text
    ensures |text| <= PreviewLength ==> r == text
    ensures |text| > PreviewLength ==> |r| == PreviewLength
  {
    text[..if |text| < PreviewLength then |text| else PreviewLength]
  }

  /** The preview in list views: the thread's last message, cut to 100
      characters followed by "..." when longer; "" for an empty thread. */
  function ListPreview(thread: seq<InquiryMessage>): (r: string)
    ensures thread == [] ==> r == ""
    ensures |r| <= PreviewLength + |Ellipsis|
    ensures thread != [] ==> r[..if |r| < PreviewLength then |r| else PreviewLength] <= thread[|thread| - 1].text
  {
    var last := if thread == [] then "" else thread[|thread| - 1].text;
    if |last| > PreviewLength then last[..PreviewLength] + Ellipsis else last
  }

  /** The two previews of the same message agree exactly when it is at
      most 100 characters long; a longer one gains "..." in list views. */
  lemma PreviewsAgreeOnlyWhenShort(thread: seq<InquiryMessage>)
    requires thread != []
    ensures var text := thread[|thread| - 1].text;
      && (ListPreview(thread) == CreationPreview(text) <==> |text| <= PreviewLength)
      && (|text| > PreviewLength ==> ListPreview(thread) == CreationPreview(text) + Ellipsis)
  {
    var text := thread[|thread| - 1].text;
    if |text| > PreviewLength {
      assert |ListPreview(thread)| == PreviewLength + |Ellipsis|;
    }
  }

  /** The admin-side unread flag: the admin/agent side never opened the
      thread, or a message arrived after it last did. */
  predicate HasUnread(i: Inquiry)
    ensures !HasUnread(i) <==> exists t :: i.lastReadAtAdmin == Some(t) && i.lastMessageAt <= t
  {
    i.lastReadAtAdmin.None? || i.lastMessageAt > i.lastReadAtAdmin.value
  }

  /** The display name of a message's sender: "Admin" for any admin,
      otherwise the sender's user name, or "Unknown" when no such user. */
  function SenderName(m: InquiryMessage, dir: Directory): (r: string)
    ensures r == "Admin" || r == "Unknown" || (m.senderId in dir.users && r == dir.users[m.senderId].name)
    ensures m.senderRole != Admin && m.senderId in dir.users ==> r == dir.users[m.senderId].name
  {
    if m.senderRole == Admin then "Admin"
    else if m.senderId in dir.users then dir.users[m.senderId].name
    else "Unknown"
  }

  /** An admin's message is shown as "Admin", whatever the user table says,
      so it never carries the admin's own name unless that name is "Admin". */
  lemma AdminMessagesAreAnonymous(m: InquiryMessage, dir: Directory, dir': Directory)
    requires m.senderRole == Admin
    ensures SenderName(m, dir) == "Admin"
    ensures SenderName(m, dir) == SenderName(m, dir')
    ensures m.senderId in dir.users && dir.users[m.senderId].name != "Admin" ==>
      SenderName(m, dir) != dir.users[m.senderId].name
  {
  }

  /** Any other sender is shown under the name the user table holds for
      the sender's id; the table alone decides it, not the role. */
  lemma OtherSendersShowTheirName(m: InquiryMessage, dir: Directory, role: Role)
    requires m.senderRole != Admin && role != Admin && m.senderId in dir.users
    ensures SenderName(m, dir) == dir.users[m.senderId].name
    ensures SenderName(m, dir) == SenderName(m.(senderRole := role), dir)
  {
  }

  /** A non-admin sender with no user row is shown as "Unknown". */
  lemma MissingSenderIsUnknown(m: InquiryMessage, dir: Directory)
    requires m.senderRole != Admin && m.senderId !in dir.users
    ensures SenderName(m, dir) == "Unknown"
  {
  }

  function ToDto(i: Inquiry, preview: string): (d: InquiryDto)
    ensures d.id == i.id && d.userId == i.user.id && d.userName == i.user.name && d.status == i.status
    ensures d.propertyId == i.property.id && d.propertyTitle == i.property.title
    ensures d.propertyAddress == i.property.address
    ensures d.lastMessagePreview == preview && d.hasUnread == HasUnread(i)
    ensures d.lastMessageAt == i.lastMessageAt && d.createdAt == i.createdAt
    ensures d.assignedAgentId == if i.assignedAgent.Some? then Some(i.assignedAgent.value.id) else None
    ensures d.assignedAgentName == if i.assignedAgent.Some? then Some(i.assignedAgent.value.name) else None
  {
    InquiryDto(
      i.id, i.user.id, i.user.name,
      i.property.id, i.property.title, i.property.address,
      if i.assignedAgent.Some? then Some(i.assignedAgent.value.id) else None,
      if i.assignedAgent.Some? then Some(i.assignedAgent.value.name) else None,
      i.status, preview, i.lastMessageAt, i.createdAt, HasUnread(i))
  }

  /** `toDTOWithLastMessage`: the summary with the list-view preview of
      the inquiry's stored thread. */
  function Summary(messages: seq<InquiryMessage>, i: Inquiry): (d: InquiryDto)
    ensures d.id == i.id && d.userId == i.user.id && d.status == i.status
    ensures d.lastMessageAt == i.lastMessageAt && d.hasUnread == HasUnread(i)
    ensures d.lastMessagePreview == ListPreview(FindByInquiryIdOrderByCreatedAtAsc(messages, i.id))
    ensures d == ToDto(i, d.lastMessagePreview)
  {
    ToDto(i, ListPreview(FindByInquiryIdOrderByCreatedAtAsc(messages, i.id)))
  }

  function ToMessageDto(m: InquiryMessage, dir: Directory): (d: MessageDto)
    ensures d.id == m.id && d.senderId == m.senderId && d.senderRole == m.senderRole
    ensures d.text == m.text && d.createdAt == m.createdAt
    ensures d.senderName == SenderName(m, dir)
  {
    MessageDto(m.id, m.senderId, SenderName(m, dir), m.senderRole, m.text, m.createdAt)
  }

  /** The views of a thread's messages, oldest first. */
  function ThreadView(messages: seq<InquiryMessage>, inquiryId: nat, dir: Directory): (r: seq<MessageDto>)
    ensures var thread := FindByInquiryIdOrderByCreatedAtAsc(messages, inquiryId);
      |r| == |thread| && forall k :: 0 <= k < |r| ==> r[k] == ToMessageDto(thread[k], dir)
    ensures forall i, j :: 0 <= i < j < |r| ==> r[i].createdAt <= r[j].createdAt
  {
    ViewsOf(FindByInquiryIdOrderByCreatedAtAsc(messages, inquiryId), dir)
  }

  /** The views of `thread`, in the same order. */
  function ViewsOf(thread: seq<InquiryMessage>, dir: Directory): (r: seq<MessageDto>)
    ensures |r| == |thread| && forall k :: 0 <= k < |r| ==> r[k] == ToMessageDto(thread[k], dir)
    ensures (forall i, j :: 0 <= i < j < |thread| ==> thread[i].createdAt <= thread[j].createdAt) ==>
      forall i, j :: 0 <= i < j < |r| ==> r[i].createdAt <= r[j].createdAt
  {
    seq(|thread|, k requires 0 <= k < |thread| => ToMessageDto(thread[k], dir))
  }

  // Broadcast topics.

  const AdminInquiriesTopic := "/topic/admin/inquiries"

  function AdminThreadTopic(inquiryId: nat): string {
    "/topic/admin/inquiries/" + NatToString(inquiryId)
  }

  function AgentInquiriesTopic(linkedUserId: nat): string {
    "/topic/agents/" + NatToString(linkedUserId) + "/inquiries"
  }

  function AgentThreadTopic(linkedUserId: nat, inquiryId: nat): string {
    "/topic/agents/" + (NatToString(linkedUserId) + ("/inquiries/" + NatToString(inquiryId)))
  }

  function UserThreadTopic(userId: nat, inquiryId: nat): string {
    "/topic/users/" + (NatToString(userId) + ("/inquiries/" + NatToString(inquiryId)))
  }

  /** A topic the admin console or an agent dashboard listens on. */
  predicate IsStaffTopic(t: string) {
    "/topic/admin/" <= t || "/topic/agents/" <= t
  }

  /** A topic a property seeker's page listens on. */
  predicate IsUserTopic(t: string) {
    "/topic/users/" <= t
  }

  /** Every topic the engine builds lies in its family: admin and agent
      topics are staff topics, the user thread topic is a user topic. */
  lemma TopicFamilies(userId: nat, linkedUserId: nat, inquiryId: nat)
    ensures IsStaffTopic(AdminInquiriesTopic)
    ensures IsStaffTopic(AdminThreadTopic(inquiryId))
    ensures IsStaffTopic(AgentInquiriesTopic(linkedUserId))
    ensures IsStaffTopic(AgentThreadTopic(linkedUserId, inquiryId))
    ensures IsUserTopic(UserThreadTopic(userId, inquiryId))
  {
    var admin, agents, users := "/topic/admin/", "/topic/agents/", "/topic/users/";
    assert AdminInquiriesTopic[..|admin|] == admin;
    assert ("/topic/admin/inquiries/" + NatToString(inquiryId))[..|admin|] == admin;
    assert (agents + NatToString(linkedUserId) + "/inquiries")[..|agents|] == agents;
    assert (agents + (NatToString(linkedUserId) + ("/inquiries/" + NatToString(inquiryId))))[..|agents|] == agents;
    assert (users + (NatToString(userId) + ("/inquiries/" + NatToString(inquiryId))))[..|users|] == users;
  }

  /** No topic is in both families. */
  lemma TopicFamiliesDisjoint(t: string)
    ensures !(IsStaffTopic(t) && IsUserTopic(t))
  {
    if IsUserTopic(t) {
      assert t[8] == 's';
    }
  }

  /** Distinct linked users listen on distinct agent topics. */
  lemma AgentInquiriesTopicInjective(a: nat, b: nat)
    requires AgentInquiriesTopic(a) == AgentInquiriesTopic(b)
    ensures a == b
  {
    var prefix, suffix := "/topic/agents/", "/inquiries";
    var ta, tb := AgentInquiriesTopic(a), AgentInquiriesTopic(b);
    var sa, sb := NatToString(a), NatToString(b);
    assert |sa| == |sb|;
    assert sa == ta[|prefix|..|prefix| + |sa|];
    assert sb == tb[|prefix|..|prefix| + |sb|];
    NatToStringInjective(a, b);
  }

  /** An agent inbox is never the admin inbox, and distinct linked users
      have distinct inboxes. */
  lemma InboxTopicsDistinct(a: nat, b: nat)
    ensures AgentInquiriesTopic(a) != AdminInquiriesTopic
    ensures AgentInquiriesTopic(a) == AgentInquiriesTopic(b) ==> a == b
  {
    assert AgentInquiriesTopic(a)[8] == 'g' && AdminInquiriesTopic[8] == 'd';
    if AgentInquiriesTopic(a) == AgentInquiriesTopic(b) {
      AgentInquiriesTopicInjective(a, b);
    }
  }

  /** The position of the first '/' in `s`, or `|s|` when there is none. */
  function SlashIndex(s: string): (n: nat)
    ensures n <= |s|
  {
    if s == [] || s[0] == '/' then 0 else 1 + SlashIndex(s[1..])
  }

  /** A decimal number followed by a '/' ends right before that '/'. */
  lemma {:induction false} SlashEndsDigits(digits: string, rest: string)
    requires forall i :: 0 <= i < |digits| ==> '0' <= digits[i] <= '9'
    requires rest != [] && rest[0] == '/'
    ensures SlashIndex(digits + rest) == |digits|
  {
    if digits != [] {
      assert (digits + rest)[1..] == digits[1..] + rest;
      SlashEndsDigits(digits[1..], rest);
    }
  }

  /** A decimal number followed by a '/'-led rest splits at that '/'. */
  lemma SplitAtSlash(d1: string, r1: string, d2: string, r2: string)
    requires forall i :: 0 <= i < |d1| ==> '0' <= d1[i] <= '9'
    requires forall i :: 0 <= i < |d2| ==> '0' <= d2[i] <= '9'
    requires r1 != [] && r1[0] == '/' && r2 != [] && r2[0] == '/'
    requires d1 + r1 == d2 + r2
    ensures d1 == d2 && r1 == r2
  {
    SlashEndsDigits(d1, r1);
    SlashEndsDigits(d2, r2);
    assert d1 == (d1 + r1)[..|d1|];
    assert d2 == (d2 + r2)[..|d2|];
    assert r1 == (d1 + r1)[|d1|..];
    assert r2 == (d2 + r2)[|d2|..];
  }

  /** Equal strings with a common prefix have equal remainders. */
  lemma StripPrefix(p: string, a: string, b: string)
    requires p + a == p + b
    ensures a == b
  {
    assert a == (p + a)[|p|..];
    assert b == (p + b)[|p|..];
  }

  /** Two numbers separated by a '/'-led middle are recovered from the
      text around them. */
  lemma NumbersAroundMiddle(prefix: string, middle: string, a1: string, b1: string, a2: string, b2: string)
    requires forall i :: 0 <= i < |a1| ==> '0' <= a1[i] <= '9'
    requires forall i :: 0 <= i < |a2| ==> '0' <= a2[i] <= '9'
    requires middle != [] && middle[0] == '/'
    requires prefix + (a1 + (middle + b1)) == prefix + (a2 + (middle + b2))
    ensures a1 == a2 && b1 == b2
  {
    StripPrefix(prefix, a1 + (middle + b1), a2 + (middle + b2));
    SplitAtSlash(a1, middle + b1, a2, middle + b2);
    StripPrefix(middle, b1, b2);
  }

  /** Distinct (linked user, inquiry) pairs have distinct agent thread topics. */
  lemma AgentThreadTopicInjective(u1: nat, i1: nat, u2: nat, i2: nat)
    requires AgentThreadTopic(u1, i1) == AgentThreadTopic(u2, i2)
    ensures u1 == u2 && i1 == i2
  {
    NumbersAroundMiddle("/topic/agents/", "/inquiries/", NatToString(u1), NatToString(i1), NatToString(u2), NatToString(i2));
    NatToStringInjective(u1, u2);
    NatToStringInjective(i1, i2);
  }

  /** Distinct (user, inquiry) pairs have distinct user topics. */
  lemma UserThreadTopicInjective(u1: nat, i1: nat, u2: nat, i2: nat)
    requires UserThreadTopic(u1, i1) == UserThreadTopic(u2, i2)
    ensures u1 == u2 && i1 == i2
  {
    NumbersAroundMiddle("/topic/users/", "/inquiries/", NatToString(u1), NatToString(i1), NatToString(u2), NatToString(i2));
    NatToStringInjective(u1, u2);
    NatToStringInjective(i1, i2);
  }
}
