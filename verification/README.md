# Inquiry threads, listing-decision notifications and admin decisions

A Dafny model of the messaging core of a property-listing web application (Java, Spring):

- **Inquiry threads.** A property seeker opens an inquiry about a listing and exchanges messages with the listing's agent or an administrator. Each inquiry has a status (PENDING, REPLIED, CLOSED), read markers for the user side and the shared admin/agent side, and an unread flag for staff. Creating an inquiry, a user's follow-up, a staff reply and a reassignment are broadcast on STOMP topics; closing and the fetches broadcast nothing. The model covers the service operations (`createInquiry`, `sendUserMessage`, `replyToInquiry`, `closeInquiry`, `reassignInquiry`, the three thread fetches and the three list queries), the derived repository queries they rely on, the entity defaults, and the summary and message views.
- **Listing-decision notifications.** Each user has a registry of live server-sent-event connections. A decision on a listing is saved as a notification and pushed to the owner's connections. Connections whose send fails are dropped. Users mark notifications read and list their 50 most recent.
- **Admin decision endpoints.** The approve and reject endpoints resolve the decision text from an optional JSON body and shape the response.

The model is functional. The two tables are sequences of immutable rows, and the live registry is a `map<string, seq<Emitter>>`. An exception becomes `Err` with the exact message the code throws, and broadcasts are returned as a list of (topic, payload) pairs. The clock reading, the authenticated caller, the lookups of users, properties and agents, the success of each send and the property service are all parameters.

Modules:

| file | module | models |
|---|---|---|
| `wrappers.dfy` | `Wrappers` | `Option` and `Result` |
| `java_strings.dfy` | `JavaStrings` | `String.isBlank`, `String.trim`, `Long.toString` |
| `ordering.dfy` | `Ordering` | filtering, counting and sorting for derived queries |
| `inquiry_model.dfy` | `InquiryModel` | `Inquiry`, `InquiryMessage`, `InquiryStatus` and their save-time defaults |
| `inquiry_repository.dfy` | `InquiryRepository` | `InquiryRepository` queries and `save` |
| `inquiry_message_repository.dfy` | `InquiryMessageRepository` | the thread query |
| `inquiry_views.dfy` | `InquiryViews` | previews, DTOs, the unread flag, sender names, topic strings |
| `inquiry_service.dfy` | `InquiryService` | the `InquiryService` operations |
| `inquiry_lifecycle.dfy` | `InquiryLifecycle` | the status machine, access, read markers, audiences, the table invariant |
| `notification_service.dfy` | `Notifications` | `NotificationService` |
| `admin_listing.dfy` | `AdminListing` | `AdminListingController` approve and reject |

The status machine that the code implements is `InquiryLifecycle.NextStatus`:

- A user message is refused on CLOSED and otherwise leads to PENDING.
- A staff reply leads to REPLIED from every status, CLOSED included.
- A close leads to CLOSED from every status.
- Reassignments and reads keep the status.

CLOSED is therefore not terminal: an admin, or the assigned agent, can reopen a closed inquiry by replying (`InquiryLifecycle.StaffReplyReopensClosed`). Nothing in the code makes CLOSED terminal.

## Model

| member | source | states |
|---|---|---|
| InquiryModel.PersistInquiry | src/main/java/com/example/final_project/model/Inquiry.java:25-75 | Saving a built inquiry fails without a user or a property; otherwise the status is the one given or PENDING, `createdAt` is filled with the save time only when absent, and `lastMessageAt` falls back to `createdAt`. |
| InquiryModel.PersistKeepsProvidedValues | src/main/java/com/example/final_project/model/Inquiry.java:67-75 | The creation hook never overwrites a value that was already set: saving a full row again at any later time yields the same row. |
| InquiryModel.PersistMessage | src/main/java/com/example/final_project/model/InquiryMessage.java:23-52 | Saving a message fails without the parent inquiry, sender id, sender role or text; `createdAt` is the save time only when absent. |
| InquiryModel.PersistMessageKeepsProvidedValues | src/main/java/com/example/final_project/model/InquiryMessage.java:47-52 | A message that already has `createdAt` keeps it when it is saved. |
| InquiryRepository.FindById | src/main/java/com/example/final_project/service/InquiryService.java:159-160 | The lookup returns a stored row with the requested id, and returns nothing exactly when no row has that id. |
| InquiryRepository.FindByPropertyId | src/main/java/com/example/final_project/repository/InquiryRepository.java:17 | Returns exactly the rows about the property, each as often as it is stored. |
| InquiryRepository.FindByUserIdOrderByLastMessageAtDesc | src/main/java/com/example/final_project/repository/InquiryRepository.java:20 | Returns exactly the user's rows, with the most recent activity first. |
| InquiryRepository.FindByStatusOrderByLastMessageAtDesc | src/main/java/com/example/final_project/repository/InquiryRepository.java:23 | Returns exactly the rows in the status, with the most recent activity first. |
| InquiryRepository.FindAllByOrderByLastMessageAtDesc | src/main/java/com/example/final_project/repository/InquiryRepository.java:26 | Returns a permutation of the table, with the most recent activity first. |
| InquiryRepository.FindByAssignedAgentIdOrderByLastMessageAtDesc | src/main/java/com/example/final_project/repository/InquiryRepository.java:29 | Returns exactly the rows assigned to the agent; an unassigned row never matches. Most recent activity comes first. |
| InquiryRepository.FindByAssignedAgentIdAndStatusOrderByLastMessageAtDesc | src/main/java/com/example/final_project/repository/InquiryRepository.java:32 | Returns exactly the rows assigned to the agent in the status, with the most recent activity first. |
| InquiryRepository.FindByIdAndUserId | src/main/java/com/example/final_project/repository/InquiryRepository.java:35-36 | Finds a row only when it has the id and belongs to the user; finds nothing exactly when no row has both. |
| InquiryRepository.FindByIdAndAssignedAgentId | src/main/java/com/example/final_project/repository/InquiryRepository.java:39-40 | Finds a row only when it has the id and is assigned to the agent; finds nothing exactly when no row has both. |
| InquiryRepository.OwnershipCheckMatchesLookup | src/main/java/com/example/final_project/repository/InquiryRepository.java:35-36 | With unique ids, the ownership query succeeds exactly when the row with the id exists and is the user's, and then returns that row. |
| InquiryRepository.AssignmentCheckMatchesLookup | src/main/java/com/example/final_project/repository/InquiryRepository.java:39-40 | With unique ids, the assignment query succeeds exactly when the row with the id exists and is assigned to the agent, and then returns that row. |
| InquiryRepository.UniqueIdsSameRow | src/main/java/com/example/final_project/model/Inquiry.java:25-27 | Under the primary key, two stored rows with the same id are the same row. |
| InquiryRepository.CountUnreadForUser | src/main/java/com/example/final_project/repository/InquiryRepository.java:44-45 | The unread count equals the number of the user's rows whose last message is later than the last read time, or later than the creation time when the user never read. It never exceeds the number of the user's inquiries. |
| InquiryRepository.UnreadAmongOwned | src/main/java/com/example/final_project/repository/InquiryRepository.java:44-45 | Every unread inquiry counted for a user is one of that user's inquiries. |
| InquiryRepository.CountByStatus | src/main/java/com/example/final_project/repository/InquiryRepository.java:48 | The count agrees with the status finder: it is the number of rows that finder lists. |
| InquiryRepository.Save | src/main/java/com/example/final_project/service/InquiryService.java:163-164 | Saving keeps the table's size and every row's id in place. |
| InquiryRepository.SaveThenFind | src/main/java/com/example/final_project/service/InquiryService.java:163-164 | After a save, looking up the saved id yields the saved row, and every other id yields what it did before. |
| InquiryRepository.SaveThenFindOwned | src/main/java/com/example/final_project/service/InquiryService.java:90-91 | After a save, the ownership query for the saved row's id and owner finds exactly that row. |
| InquiryRepository.SaveThenFindAssigned | src/main/java/com/example/final_project/service/InquiryService.java:295-296 | After a save, the assignment query for the saved row's id and agent finds exactly that row. |
| InquiryRepository.SaveIdempotent | src/main/java/com/example/final_project/service/InquiryService.java:163-164 | Saving the same row twice is the same as saving it once. |
| InquiryRepository.SaveKeepsIdsUnique | src/main/java/com/example/final_project/service/InquiryService.java:163-164 | Saving never creates a duplicate id. |
| InquiryMessageRepository.FindByInquiryIdOrderByCreatedAtAsc | src/main/java/com/example/final_project/repository/InquiryMessageRepository.java:18 | Returns exactly the thread's messages, each as often as it is stored, oldest first. |
| InquiryMessageRepository.EmptyThread | src/main/java/com/example/final_project/repository/InquiryMessageRepository.java:18 | A thread nobody has written to comes back empty. |
| InquiryMessageRepository.FirstMessageIsWholeThread | src/main/java/com/example/final_project/service/InquiryService.java:50-61 | The first message written to an empty thread is the whole thread. |
| InquiryViews.CreationPreview | src/main/java/com/example/final_project/service/InquiryService.java:67 | The preview returned on creation is a prefix of the text, at most 100 characters long: the whole text when it is short enough, otherwise exactly 100 characters. |
| InquiryViews.ListPreview | src/main/java/com/example/final_project/service/InquiryService.java:370-374 | The list preview is empty for an empty thread. Otherwise it starts with a prefix of the last message and is at most 100 characters plus the "..." suffix. |
| InquiryViews.PreviewsAgreeOnlyWhenShort | src/main/java/com/example/final_project/service/InquiryService.java:370-374 | The creation preview and the list preview of the same message are equal exactly when the message has at most 100 characters. |
| InquiryViews.AdminMessagesAreAnonymous | src/main/java/com/example/final_project/service/InquiryService.java:389-392 | An admin's message shows the sender as "Admin" whatever the user table holds, so it never shows the admin's own name. |
| InquiryViews.SenderName | src/main/java/com/example/final_project/service/InquiryService.java:389-396 | The sender name is "Admin", "Unknown" or a name from the user table. A non-admin sender who is in the table shows that name. |
| InquiryViews.OtherSendersShowTheirName | src/main/java/com/example/final_project/service/InquiryService.java:393-394 | A non-admin sender who is in the user table shows the table's name, whichever non-admin role the message carries. |
| InquiryViews.MissingSenderIsUnknown | src/main/java/com/example/final_project/service/InquiryService.java:393-395 | A non-admin sender missing from the user table shows as "Unknown". |
| InquiryViews.HasUnread | src/main/java/com/example/final_project/service/InquiryService.java:398-402 | An inquiry has nothing unread for staff exactly when the admin read marker is set and the last message is not after it. |
| InquiryViews.Summary | src/main/java/com/example/final_project/service/InquiryService.java:370-375 | The summary of an inquiry is that inquiry's full summary view (every field as the summary view copies it), with the list preview of the last message of the inquiry's thread. |
| InquiryViews.ToDto | src/main/java/com/example/final_project/service/InquiryService.java:352-368 | The summary copies the inquiry's id, owner id and name, property id, title and address, assigned agent id and name, status, times and the given preview. Its unread flag is the admin-side unread test. |
| InquiryViews.ToMessageDto | src/main/java/com/example/final_project/service/InquiryService.java:377-387 | The message view copies the message's id, sender id, role, text and time. Its sender name is the one the sender-name rule gives. |
| InquiryViews.ThreadView | src/main/java/com/example/final_project/service/InquiryService.java:93-96 | A fetched thread has one view per stored message of the inquiry, in the query's order, and is oldest first. |
| InquiryViews.TopicFamilies | src/main/java/com/example/final_project/service/InquiryService.java:318-350 | Every admin and agent topic belongs to the staff family, and every user thread topic to the user family. |
| InquiryViews.TopicFamiliesDisjoint | src/main/java/com/example/final_project/service/InquiryService.java:318-350 | No topic is in both the staff family and the user family. |
| InquiryViews.AgentInquiriesTopicInjective | src/main/java/com/example/final_project/service/InquiryService.java:326-328 | Distinct linked users have distinct agent inbox topics. |
| InquiryViews.UserThreadTopicInjective | src/main/java/com/example/final_project/service/InquiryService.java:346-348 | Distinct (user, inquiry) pairs have distinct user thread topics. |
| InquiryViews.AgentThreadTopicInjective | src/main/java/com/example/final_project/service/InquiryService.java:339-342 | Distinct (linked user, inquiry) pairs have distinct agent thread topics. |
| InquiryViews.InboxTopicsDistinct | src/main/java/com/example/final_project/service/InquiryService.java:322-328 | An agent inbox is never the admin inbox, and distinct linked users have distinct inboxes. |
| InquiryService.NewMessage | src/main/java/com/example/final_project/service/InquiryService.java:113-121 | A new message gets the next message id and records the thread, the sender's id and role, the text and the current time. |
| InquiryService.NewInquiryBroadcasts | src/main/java/com/example/final_project/service/InquiryService.java:318-330 | A new inquiry's summary goes to the admin inbox and, when the assigned agent has a linked account, to that account's inbox: two broadcasts then, one otherwise. |
| InquiryService.UserReplyBroadcasts | src/main/java/com/example/final_project/service/InquiryService.java:335-343 | A user's follow-up goes to the admin view of the thread and, when the assigned agent has a linked account, to that account's view of the thread. |
| InquiryService.StaffReplyBroadcasts | src/main/java/com/example/final_project/service/InquiryService.java:344-349 | A staff reply goes to exactly one topic, the inquiring user's view of the thread. |
| InquiryService.StaffDenial | src/main/java/com/example/final_project/service/InquiryService.java:181-188 | An admin is never refused. A non-admin is refused with "Agent profile not found" exactly when no agent profile is linked to the caller, and otherwise with "You are not assigned to this inquiry" unless the inquiry is assigned to that profile. |
| InquiryService.CreateInquiry | src/main/java/com/example/final_project/service/InquiryService.java:35-68 | Fails with "Property not found" exactly when the property is unknown. Otherwise it appends one PENDING inquiry (next id, the caller, the property and its agent, both times now, never read) and its first message. It returns that inquiry's full summary view with the creation preview, and announces it to staff. |
| InquiryService.SendUserMessage | src/main/java/com/example/final_project/service/InquiryService.java:103-136 | Fails for a non-owner with the not-found message, and on CLOSED with "Cannot send messages to closed inquiries". Otherwise it appends the message, sets PENDING, the last-message time and the user read marker, keeps the admin marker, and notifies the admin thread and the linked agent. |
| InquiryService.ReplyToInquiry | src/main/java/com/example/final_project/service/InquiryService.java:176-211 | Fails for an unknown inquiry and for a refused staff member. Otherwise it appends the reply, sets REPLIED from any status, and sets the last-message time and the admin read marker. Only the inquiring user is notified. |
| InquiryService.CloseInquiry | src/main/java/com/example/final_project/service/InquiryService.java:217-235 | Has the same refusals as a reply. Otherwise it sets CLOSED, changes nothing else and notifies nobody. |
| InquiryService.ReassignInquiry | src/main/java/com/example/final_project/service/InquiryService.java:241-259 | Fails with "Inquiry not found" or "Agent not found". Otherwise it sets the new agent, keeps the status, and notifies the new agent's inbox only when that agent has a linked account. |
| InquiryService.GetInquiryMessages | src/main/java/com/example/final_project/service/InquiryService.java:84-97 | Fails exactly for a non-owner, with "Inquiry not found or access denied". Otherwise it sets the user read marker and returns the thread, notifying nobody. |
| InquiryService.GetInquiryMessagesAdmin | src/main/java/com/example/final_project/service/InquiryService.java:158-170 | Fails exactly for an unknown id, with "Inquiry not found". Otherwise it sets the admin read marker and returns the thread. |
| InquiryService.GetInquiryMessagesAgent | src/main/java/com/example/final_project/service/InquiryService.java:286-302 | Fails with "Agent profile not found" without a linked profile, and with "Inquiry not found or not assigned to you" unless the inquiry is assigned to it. Otherwise it sets the shared admin read marker and returns the thread. |
| InquiryService.Summaries | src/main/java/com/example/final_project/service/InquiryService.java:77 | There is one summary per row, in the rows' order. The summaries are exactly those of the given rows, and rows ordered by most recent activity give summaries in that order. |
| InquiryService.GetMyInquiries | src/main/java/com/example/final_project/service/InquiryService.java:73-79 | Returns one summary per inquiry of the caller: every inquiry of the caller is summarised, every summary is of one of them, and the count matches. Most recent activity comes first. |
| InquiryService.GetAllInquiries | src/main/java/com/example/final_project/service/InquiryService.java:143-153 | Returns exactly the summaries of the stored inquiries in the status, or of all of them without a filter, one per row. Most recent activity comes first. |
| InquiryService.GetAgentInquiries | src/main/java/com/example/final_project/service/InquiryService.java:266-281 | Fails exactly without a linked agent profile. Otherwise it returns one summary per inquiry assigned to that profile, in the status when one is given, and nothing else. Most recent activity comes first. |
| InquiryService.AgentSummaries | src/main/java/com/example/final_project/service/InquiryService.java:271-280 | The agent list has one summary per inquiry assigned to the agent (of the status when given), every summary is of such an inquiry, and most recent activity comes first. |
| InquiryService.ValidIdsUnique | src/main/java/com/example/final_project/model/Inquiry.java:25-27 | The table invariant includes unique inquiry ids. |
| InquiryLifecycle.SaveRealises | src/main/java/com/example/final_project/service/InquiryService.java:129 | Saving an existing row that carries the status the machine prescribes realises the transition. |
| InquiryLifecycle.UserMessageTransition | src/main/java/com/example/final_project/service/InquiryService.java:103-129 | A follow-up succeeds exactly for the owner of a non-CLOSED inquiry, and then takes PENDING or REPLIED to PENDING. |
| InquiryLifecycle.StaffReplyTransition | src/main/java/com/example/final_project/service/InquiryService.java:176-204 | A reply succeeds exactly for an admin or the assigned agent, and then sets REPLIED from every status. |
| InquiryLifecycle.StaffReplyReopensClosed | src/main/java/com/example/final_project/service/InquiryService.java:176-204 | An admin's reply to a CLOSED inquiry is accepted and leaves it REPLIED: CLOSED is not terminal. |
| InquiryLifecycle.CloseTransition | src/main/java/com/example/final_project/service/InquiryService.java:217-232 | A close succeeds exactly for an admin or the assigned agent, and then sets CLOSED from every status. |
| InquiryLifecycle.ReassignKeepsStatus | src/main/java/com/example/final_project/service/InquiryService.java:241-249 | Reassignment leaves the stored status unchanged. |
| InquiryLifecycle.ReadMarkerKeepsStatus | src/main/java/com/example/final_project/service/InquiryService.java:163-164 | Stamping a read marker on a stored row leaves its status unchanged. |
| InquiryLifecycle.UserFetchKeepsStatus | src/main/java/com/example/final_project/service/InquiryService.java:84-91 | The owner's thread fetch leaves the stored status unchanged. |
| InquiryLifecycle.AdminFetchKeepsStatus | src/main/java/com/example/final_project/service/InquiryService.java:158-164 | The admin's thread fetch leaves the stored status unchanged. |
| InquiryLifecycle.AgentFetchKeepsStatus | src/main/java/com/example/final_project/service/InquiryService.java:286-296 | The agent's thread fetch leaves the stored status unchanged. |
| InquiryLifecycle.OwnerAccess | src/main/java/com/example/final_project/service/InquiryService.java:84-106 | The owner's fetch succeeds exactly for the owner. Anyone else is refused reading and writing with "Inquiry not found or access denied". |
| InquiryLifecycle.AgentAccess | src/main/java/com/example/final_project/service/InquiryService.java:181-188 | For a non-admin, replying, closing and the agent fetch each succeed exactly when the inquiry is assigned to the caller's linked agent profile. |
| InquiryLifecycle.AdminNeverDenied | src/main/java/com/example/final_project/service/InquiryService.java:158-232 | An admin's reply, close and fetch are never refused on an existing inquiry. |
| InquiryLifecycle.UserFetchIdempotent | src/main/java/com/example/final_project/service/InquiryService.java:84-97 | Fetching one's thread twice at the same instant gives the same result and state as fetching it once. |
| InquiryLifecycle.AdminFetchIdempotent | src/main/java/com/example/final_project/service/InquiryService.java:158-170 | A second admin fetch at the same instant changes nothing. |
| InquiryLifecycle.AgentFetchIdempotent | src/main/java/com/example/final_project/service/InquiryService.java:286-302 | A second agent fetch at the same instant changes nothing. |
| InquiryLifecycle.AgentAndAdminShareReadMarker | src/main/java/com/example/final_project/service/InquiryService.java:295 | A successful agent fetch has exactly the outcome and stored state of an admin fetch at the same instant, because both set the one admin-side marker. |
| InquiryLifecycle.ReplyLeavesNothingUnread | src/main/java/com/example/final_project/service/InquiryService.java:201-203 | After a staff reply the inquiry is not unread on the admin side. |
| InquiryLifecycle.UserMessageUnreadForStaff | src/main/java/com/example/final_project/service/InquiryService.java:124-128 | After a follow-up the user side is marked read and the admin marker is untouched. The inquiry is unread for staff exactly when staff never read it or last read it before the message. |
| InquiryLifecycle.AdminFetchClearsUnread | src/main/java/com/example/final_project/service/InquiryService.java:398-402 | After an admin fetch at time t, the inquiry shows unread exactly when its last message is later than t. |
| InquiryLifecycle.NewInquiryAudience | src/main/java/com/example/final_project/service/InquiryService.java:318-330 | A new inquiry is announced on staff topics only: always the admin inbox, and an agent inbox exactly when its account is the one linked to the property's agent. |
| InquiryLifecycle.NewInquiryBroadcastsAudience | src/main/java/com/example/final_project/service/InquiryService.java:318-330 | The new-inquiry broadcasts go to the admin inbox and to the inbox of the assigned agent's linked account, and to nothing else. |
| InquiryLifecycle.NewInquiryTopics | src/main/java/com/example/final_project/service/InquiryService.java:318-330 | A new inquiry is published on the admin inbox, plus the assigned agent's linked account's inbox when there is one, and on nothing else. |
| InquiryLifecycle.UserMessageAudience | src/main/java/com/example/final_project/service/InquiryService.java:335-343 | A user's follow-up is broadcast only on staff topics, always including the admin view of the thread, and on an agent's view of the thread exactly when that agent's linked account is the inquiry's assigned agent's. |
| InquiryLifecycle.UserReplyBroadcastsAudience | src/main/java/com/example/final_project/service/InquiryService.java:335-343 | The follow-up broadcasts reach the admin view of the thread, only staff topics, and a given agent account's thread view exactly when it is the assigned agent's. |
| InquiryLifecycle.StaffReplyAudience | src/main/java/com/example/final_project/service/InquiryService.java:344-349 | A staff reply is broadcast on exactly one topic, the inquiring user's thread, which no other user listens on. |
| InquiryLifecycle.ReassignTellsOnlyNewAgent | src/main/java/com/example/final_project/service/InquiryService.java:251-255 | After a reassignment, the only agent inbox notified is the new agent's linked account. |
| InquiryLifecycle.CreatedThreadIsFirstMessage | src/main/java/com/example/final_project/service/InquiryService.java:50-67 | A new inquiry's thread is its first message alone. The staff announcement previews that message, and it agrees with the creator's preview exactly when the text has at most 100 characters. |
| InquiryLifecycle.CreateKeepsValid | src/main/java/com/example/final_project/service/InquiryService.java:35-68 | Creation keeps ids sequential and every message attached to a stored inquiry. |
| InquiryLifecycle.UserMessageKeepsValid | src/main/java/com/example/final_project/service/InquiryService.java:103-136 | A follow-up keeps the table invariant. |
| InquiryLifecycle.ReplyKeepsValid | src/main/java/com/example/final_project/service/InquiryService.java:176-211 | A reply keeps the table invariant. |
| InquiryLifecycle.CloseKeepsValid | src/main/java/com/example/final_project/service/InquiryService.java:217-235 | A close keeps the table invariant. |
| InquiryLifecycle.ReassignKeepsValid | src/main/java/com/example/final_project/service/InquiryService.java:241-259 | A reassignment keeps the table invariant. |
| InquiryLifecycle.FetchesKeepValid | src/main/java/com/example/final_project/service/InquiryService.java:84-302 | The three thread fetches keep the table invariant. |
| InquiryLifecycle.MyInquiriesMatchOwnerAccess | src/main/java/com/example/final_project/service/InquiryService.java:73-79 | An inquiry id appears in the caller's list exactly when the caller's own thread fetch of it succeeds. |
| InquiryLifecycle.AllInquiriesMatchAdminAccess | src/main/java/com/example/final_project/service/InquiryService.java:143-153 | An inquiry id appears in the unfiltered admin list exactly when the admin fetch of it succeeds. |
| InquiryLifecycle.AgentInquiriesMatchAgentAccess | src/main/java/com/example/final_project/service/InquiryService.java:266-281 | An inquiry id appears in an agent's unfiltered list exactly when the agent's fetch of it succeeds. |
| InquiryLifecycle.AllInquiriesStatusFilter | src/main/java/com/example/final_project/service/InquiryService.java:143-153 | The admin list for a status is the unfiltered admin list restricted to that status. |
| InquiryLifecycle.AgentInquiriesStatusFilter | src/main/java/com/example/final_project/service/InquiryService.java:271-276 | An agent's list for a status is that agent's unfiltered list restricted to that status. |
| Notifications.RemoveFirst | src/main/java/com/example/final_project/service/NotificationService.java:97 | Removing a connection drops its first occurrence and keeps the others in order when it is present, and changes nothing otherwise. |
| Notifications.RemoveEmitter | src/main/java/com/example/final_project/service/NotificationService.java:92-101 | Removing a connection leaves an unknown address untouched. Otherwise that address's list loses the connection's first occurrence, and the address disappears once its list is empty. |
| Notifications.Subscribe | src/main/java/com/example/final_project/service/NotificationService.java:39-54 | Subscribing appends the new connection to the address's list, creating the list if needed. |
| Notifications.SubscribeThenTerminate | src/main/java/com/example/final_project/service/NotificationService.java:41-45 | Subscribing a connection and then completing, timing out or failing it restores the registry exactly. |
| Notifications.Terminate | src/main/java/com/example/final_project/service/NotificationService.java:43-45 | Completion, timeout and error each remove the first occurrence of the connection from its address's list, and leave an unknown address's registry untouched. |
| Notifications.FailedConnectLeavesRegistry | src/main/java/com/example/final_project/service/NotificationService.java:47-51 | A connection whose "connected" event cannot be sent is not kept. |
| Notifications.RemoveKeepsNoEmptyLists | src/main/java/com/example/final_project/service/NotificationService.java:97-100 | Removing a connection never leaves an address with an empty list. |
| Notifications.OperationsKeepNoEmptyLists | src/main/java/com/example/final_project/service/NotificationService.java:39-54 | Subscribing and every termination callback keep the no-empty-list invariant. |
| Notifications.OtherAddressesUnaffected | src/main/java/com/example/final_project/service/NotificationService.java:41-45 | Subscribing or terminating under one address leaves every other address's connections as they were. |
| Notifications.RemoveEmitterIdempotent | src/main/java/com/example/final_project/service/NotificationService.java:92-101 | Without duplicate connections, removing a connection twice is removing it once, and it is gone afterwards. |
| Notifications.RemoveKeepsNoDuplicates | src/main/java/com/example/final_project/service/NotificationService.java:92-101 | Removing a connection never lists a connection twice under one address. |
| Notifications.OperationsKeepNoDuplicates | src/main/java/com/example/final_project/service/NotificationService.java:39-54 | Subscribing a new connection, and each of the three ways a connection ends, keep every address's list free of duplicates. |
| Notifications.PruneKeepsInvariants | src/main/java/com/example/final_project/service/NotificationService.java:75-81 | Pruning the failed connections after a fan-out keeps both registry invariants: no empty lists, no duplicates. |
| Notifications.SurvivorsDistinct | src/main/java/com/example/final_project/service/NotificationService.java:75-81 | The connections surviving a fan-out over a list without duplicates have no duplicates. |
| Notifications.PutKeepsInvariants | src/main/java/com/example/final_project/service/NotificationService.java:92-101 | Storing a list without duplicates keeps both registry invariants, since an emptied list drops its address. |
| Notifications.DecisionRecord | src/main/java/com/example/final_project/service/NotificationService.java:61-68 | The saved notification is unread and titled "Listing " plus the status label. It carries the recipient, message and property, the next id and the save time. |
| Notifications.SurvivorsAreTheSuccessful | src/main/java/com/example/final_project/service/NotificationService.java:75-81 | Exactly the connections whose send succeeds survive the fan-out. |
| Notifications.PublishListingDecision | src/main/java/com/example/final_project/service/NotificationService.java:56-82 | For a missing or blank recipient nothing changes. Otherwise the notification is saved whether or not anyone listens, each registered connection gets one send attempt in order, and the registry becomes the reference pruning. |
| Notifications.FanOut | src/main/java/com/example/final_project/service/NotificationService.java:70-81 | The loop gives each connection of the snapshot one attempt in order. It leaves the address with exactly the connections whose send succeeded. |
| Notifications.SendAllUnvisited | src/main/java/com/example/final_project/service/NotificationService.java:75-81 | After attempts on the first i connections, the address holds the survivors among those followed by the untried rest. |
| Notifications.FindOwned | src/main/java/com/example/final_project/service/NotificationService.java:33-34 | The lookup finds a notification only when it has the id and belongs to the caller, and finds nothing exactly when none does. |
| Notifications.MarkAsRead | src/main/java/com/example/final_project/service/NotificationService.java:31-37 | Marking fails with "Notification not found" exactly when the caller has no notification with that id. Otherwise the returned row is the caller's, has the id and is read, and only rows with that id are replaced. |
| Notifications.MarkAsReadOnlySetsFlag | src/main/java/com/example/final_project/service/NotificationService.java:35-36 | Marking changes nothing of the notification but its read flag, and replaces only that one row. |
| Notifications.MarkAsReadIdempotent | src/main/java/com/example/final_project/service/NotificationService.java:31-37 | Marking a notification read a second time changes nothing more. |
| Notifications.CurrentUserNotifications | src/main/java/com/example/final_project/service/NotificationService.java:26-29 | The listing returns at most 50 notifications: all the caller's when there are fewer, else exactly 50. Each is a stored notification of the caller's, none appears more often than it is stored, and they are newest first. |
| Notifications.CurrentUserNotificationsAreTheNewest | src/main/java/com/example/final_project/service/NotificationService.java:26-29 | A notification of the caller's is left off the page only when the page is full and nothing on it is older. |
| Notifications.PageOmitsOnlyOlder | src/main/java/com/example/final_project/service/NotificationService.java:26-29 | The first 50 of a newest-first list leave out an element only when they are 50 and are all at least as new. |
| Notifications.Take | src/main/java/com/example/final_project/service/NotificationService.java:28 | The page is a prefix of the sorted list of length min(50, size), holding no element more often than the list does. |
| Notifications.PublishedDecisionLeadsPage | src/test/java/com/example/final_project/ListingWorkflowIntegrationTest.java:99-102 | A decision published after all of the recipient's earlier notifications is the first one the recipient lists. |
| AdminListing.GetOrDefault | src/main/java/com/example/final_project/controller/AdminListingController.java:45 | The default is used only when the key is absent; a key present with null yields null. |
| AdminListing.ApprovalMessage | src/main/java/com/example/final_project/controller/AdminListingController.java:29-32 | The approval text is the default unless the body has a non-null, non-blank "message"; in that case it is that message trimmed. It never starts or ends with a character up to U+0020. |
| AdminListing.RejectionReason | src/main/java/com/example/final_project/controller/AdminListingController.java:43-46 | Without a body the reason is "No reason provided". With one, a present "message" wins even when blank or null, then a present "reason", then the default. |
| AdminListing.Respond | src/main/java/com/example/final_project/controller/AdminListingController.java:34-37 | A successful service call answers with success, the fixed text and the property. An exception answers with failure and the exception's message. |
| AdminListing.ApproveListing | src/main/java/com/example/final_project/controller/AdminListingController.java:26-38 | The approval succeeds exactly when the service accepts the resolved text. It then answers "Listing approved." with the property, and otherwise the service's error text. |
| AdminListing.RejectListing | src/main/java/com/example/final_project/controller/AdminListingController.java:40-52 | The rejection succeeds exactly when the service accepts the resolved reason. It then answers "Listing rejected." with the property, and otherwise the service's error text. |
| AdminListing.ApprovalMessageIsTrimmed | src/main/java/com/example/final_project/controller/AdminListingController.java:30-31 | The approval text is a fixed point of trimming. |
| AdminListing.VisibleApprovalIsKept | src/main/java/com/example/final_project/controller/AdminListingController.java:30-31 | A "message" with any character above U+0020 never yields an empty approval text. |
| AdminListing.ControlCharacterApprovalIsEmpty | src/main/java/com/example/final_project/controller/AdminListingController.java:30-31 | A "message" consisting of one NUL character is not blank, so it is used, and it trims to the empty text. |
| AdminListing.RejectionMessageBeatsReason | src/main/java/com/example/final_project/controller/AdminListingController.java:45 | With both keys present, "message" decides the reason and "reason" is ignored. |
| AdminListing.BlankMessageAsymmetry | src/main/java/com/example/final_project/controller/AdminListingController.java:29-46 | A blank "message" is replaced by the default on approval but passed through unchanged on rejection. |
| AdminListing.NullMessageAsymmetry | src/main/java/com/example/final_project/controller/AdminListingController.java:29-46 | A "message" key holding null gives the default approval text but a null rejection reason, even when a "reason" is present. |
| AdminListing.DecisionResponsesAgree | src/main/java/com/example/final_project/controller/AdminListingController.java:34-51 | For the same service outcome, approval and rejection agree on success, property and error text. They differ only in the fixed success text. |
| JavaStrings.Trim | src/main/java/com/example/final_project/controller/AdminListingController.java:31 | The trimmed text neither starts nor ends with a character up to U+0020, it is a contiguous piece of the input, and everything cut from either end is up to U+0020. |
| JavaStrings.TrimIdempotent | src/main/java/com/example/final_project/controller/AdminListingController.java:31 | Trimming twice is trimming once. |
| JavaStrings.TrimKeepsVisible | src/main/java/com/example/final_project/controller/AdminListingController.java:31 | Every character above U+0020 survives trimming at its shifted position, so a string holding one never trims to the empty text. |
| JavaStrings.NatToStringInjective | src/main/java/com/example/final_project/service/InquiryService.java:326-348 | Distinct ids print differently, so a topic built from an id names exactly one entity. |
| JavaStrings.NatToString | src/main/java/com/example/final_project/service/InquiryService.java:326-348 | An id prints as the decimal digits that denote it, with no leading zero except for 0 itself: one digit exactly for ids below ten. |
| JavaStrings.BlankSurvivesTrim | src/main/java/com/example/final_project/controller/AdminListingController.java:30-31 | `isBlank` and `trim` disagree: an em space is blank yet survives trimming. |
| JavaStrings.TrimRemovesNonBlank | src/main/java/com/example/final_project/controller/AdminListingController.java:30-31 | `isBlank` and `trim` disagree the other way: a NUL character is not blank yet trims to the empty text. |
| JavaStrings.NotBlankIsTrimNonEmpty | src/main/java/com/example/final_project/dto/CreateInquiryRequest.java:22 | A request text passes `@NotBlank` exactly when it is non-empty after `trim`. |

## Left out

- Authentication and the current-user lookup (`getCurrentUser`, `getCurrentUserEmail`, the JWT handling of `NotificationController`) are left out. The caller is a parameter: a resolved user record for inquiries, an e-mail address for notifications. The "User not found" error is therefore not modelled.
- Each Java operation reads `LocalDateTime.now()` several times. The model uses one reading `now` per operation, so the message time, `lastMessageAt` and the read markers it sets are equal.
- The 30-minute SSE timeout value (`SSE_TIMEOUT_MS`) is left out. A timeout is modelled only as one of the three ways a connection ends.
- Concurrency is left out. Operations on `ConcurrentHashMap` and `CopyOnWriteArrayList` are sequential, and the fan-out iterates over a snapshot of the list. Connections subscribed during a fan-out are not modelled. JPA transactions, lazy loading and logging are left out too.
- Strings are sequences of Unicode scalar values. Java's UTF-16 code units and surrogate pairs are not modelled, so `substring(0, 100)` counts characters, not code units.
- The database order of rows with equal sort keys is unspecified, so the model states no order among ties.
- `UserNotification.java` and `UserNotificationRepository.java` are not part of this model. The notification table is a sequence with ids `|store| + 1`. `createdAt` is taken as the save time `now`, and `findTop50ByRecipientEmailOrderByCreatedAtDesc` is modelled from its name.
- `PropertyService` is not part of this model. Approve and reject call it as an oracle that returns the updated property or an exception message. The endpoint that lists pending listings only forwards to it.
- Two corner cases of `Map.of` are not modelled: an exception with a null message, and a null property returned by the service. Both would throw outside the `try`.
- The frontend scripts and the DTO classes are not modelled, except that the `@NotBlank` constraints on request texts become `requires NotBlank(text)`. That predicate follows the bean-validation validator, which tests `trim().length() > 0`, rather than `String.isBlank`.
- Inquiry rows hold copies of the user, property and agent records taken when the inquiry is created or reassigned. Java follows live entity references, so a later change to those records (for example, an agent's account being linked after the inquiry was created) shows in Java's summaries and broadcast topics but not in the model's.
- The `Directory` maps (users, properties, agents, agents by linked user) are not constrained to agree with each other, for example that `agentsByLinkedUser[u]` is linked to `u`. No proof depends on such agreement.
- The SSE payloads (the "connected" event and the notification body) are not modelled. Only whether each send succeeds is.
