# A verified model of the sunhan chat, auth and directory backend

This project models the core of a Spring backend for a company messenger.

**Chat.** Employees meet in chat rooms. A room holds one membership record per employee. Each record says whether the employee is active, when they joined and when they last left.

- Leaving is soft: the record stays, marked inactive.
- Joining again reactivates the record only when the caller asks for a rejoin.
- A room is deleted once its last active member leaves.

Each message keeps a list of the readers who have seen it, which only grows. It also keeps a snapshot of how many other members were active when it was sent. Its unread count is that snapshot minus the readers other than the sender, never below zero.

The message service covers:

- group and direct sends;
- a direct send that invites departed parties back;
- the system message that marks a new day;
- single and bulk read marking, and sender-only soft deletion;
- the fetch that shows only messages after the caller joined and marks what it shows as read;
- the per-room unread count and the room list ordered by last activity.

The room service looks up a direct room in both argument orders before creating one, and reactivates departed parties when it reuses a room. The chat controller adds request guards (who may exit, invite, open a direct room or delete a message), routing, attachment messages and broadcast loops.

**Auth and directory.** The model also covers:

- the Bearer-token filter (section 2.1 of RFC 6750, with the three-part compact form of section 7.1 of RFC 7515);
- the WebSocket handshake and STOMP hooks;
- rotating, single-use refresh tokens;
- upload file naming;
- id checks, e-mail certification, sign-up, sign-in and logout;
- employee registration and partial update;
- the department and section `flag` life cycle;
- the use-sections switch.

**How the model is built.**

- Repositories are sequences or maps held by small classes.
- Entities whose fields the source updates in place are classes.
- Each service operation is first stated as a pure transition of the stores (a `...Spec` function). The service method then runs the source's steps against the stores, and is proved to end exactly in that transition's state.
- Separate lemmas state what the transitions guarantee.
- The clock is an integer parameter (milliseconds; a day is `now / 86_400_000`).
- Broadcasts are appended to an event log.
- JwtProvider, the password encoder, the mail provider, random numbers, uuids and the providers' logout APIs are function parameters.

**Where the code is modelled as written.**

- The unread count uses the record's join time unconditionally. The fetch instead falls back to the room's creation time for a member who never left or who joined before the room was created.
- `ChatRoom.lastMessageContent` and `ChatMessage.dateMessage` are used by the service but not declared in the entity classes. They are modelled as fields.
- `RefreshTokenRepository.findByUser` is declared to return one token but is used as a list. It is modelled as "all tokens of the user".
- The room finders `findUnreadMessagesByRoomIdAndUserId` and `findTop1ByRoomIdOrderByTimestampDesc` are not declared. They are modelled as the declared user-level filter restricted to one room, and as the newest message of the room.
- `kakaoUuid` is declared neither in UserEntity.java nor in EmployeeEntity.java, although EmployeeService.java sets and reads it and UserRepository.java:30 updates `u.kakaoUuid`. It is modelled as an optional field of both the user and the employee.
- The employee finders `findByNameContainingAndDepartment_DepartmentName`, `findByNameContaining` and `findByKakaoUuidIn` (EmployeeService.java:290, 318, 321) are not declared in EmployeeRepository.java. They are modelled as the derived queries their names describe: a name substring test, within the named department for the first, and membership of the uuid in the given list for the last.
- JwtProvider.java declares only `create(String userId)`. The services call `createRefreshToken(userId)` and `create(userId, role)` (RefreshTokenServiceImplement.java:56, 105; AuthServiceImplement.java:171). Both are modelled as function parameters, like the declared `validate`.

## Model

| member | source | states |
|---|---|---|
| ChatRoomParticipants.JoiningIsFreshAndConsistent | src/main/java/kakao/login/entity/ChatRoomParticipant.java:43-48 | a new record is active, joined now, never left, employee as given, and consistent with the clock |
| ChatRoomParticipants.LeftKeepsJoinTime | src/main/java/kakao/login/entity/ChatRoomParticipant.java:51-54 | leave makes the record inactive, left now, keeps join time and employee, and keeps it consistent |
| ChatRoomParticipants.RejoinedKeepsLeaveTime | src/main/java/kakao/login/entity/ChatRoomParticipant.java:57-60 | rejoin makes it active, joined now, keeps the last leave time, and keeps it consistent |
| ChatRoomParticipants.LeaveThenRejoin | src/main/java/kakao/login/entity/ChatRoomParticipant.java:51-60 | leaving then rejoining later gives an active record whose leave time precedes its join time |
| ChatRoomParticipants.ChatRoomParticipant.constructor | src/main/java/kakao/login/entity/ChatRoomParticipant.java:43-48 | the entity starts as the joining record |
| ChatRoomParticipants.ChatRoomParticipant.Leave | src/main/java/kakao/login/entity/ChatRoomParticipant.java:51-54 | the entity's fields become the left record |
| ChatRoomParticipants.ChatRoomParticipant.Rejoin | src/main/java/kakao/login/entity/ChatRoomParticipant.java:57-60 | the entity's fields become the rejoined record |
| ChatRooms.RecordOf | src/main/java/kakao/login/entity/ChatRoom.java:59-61 | the found position holds the employee's record, and when none is found no record has that employee |
| ChatRooms.RecordOfUnique | src/main/java/kakao/login/entity/ChatRoom.java:59-61 | with one record per employee, the search finds that employee's only record |
| ChatRooms.OtherParty | src/main/java/kakao/login/entity/ChatRoom.java:121-127 | the answer is a member with a user other than the caller, and none is found only when every member has no user or is the caller |
| ChatRooms.AddedReusesRecord | src/main/java/kakao/login/entity/ChatRoom.java:58-71 | an employee with a record keeps exactly that record, rejoined only when asked to and the record has left and is inactive; other records are untouched; the call then fails with a null pointer exactly when the employee has no user (the log line reads it) |
| ChatRooms.AddedAppendsFresh | src/main/java/kakao/login/entity/ChatRoom.java:72-76 | an employee without a record gets a fresh active record appended; the call then fails with a null pointer exactly when the employee has no user |
| ChatRooms.AddedKeepsUnique | src/main/java/kakao/login/entity/ChatRoom.java:58-77 | addParticipant never creates a second record for an employee, and afterwards the employee has one |
| ChatRooms.AddedWithRejoinIsActive | src/main/java/kakao/login/entity/ChatRoom.java:58-77 | with consistent records, adding with rejoin leaves the employee active |
| ChatRooms.AddedWithoutRejoinKeepsDeparted | src/main/java/kakao/login/entity/ChatRoom.java:64-71 | adding without rejoin never reactivates a record that has left |
| ChatRooms.AddedKeepsConsistent | src/main/java/kakao/login/entity/ChatRoom.java:58-77 | adding keeps every record consistent as the clock advances |
| ChatRooms.DepartedMarksLeft | src/main/java/kakao/login/entity/ChatRoom.java:79-87 | removeParticipant marks the matching record inactive and left now, keeping it and its join time; the call then fails with a null pointer exactly when the employee has no user |
| ChatRooms.DepartedUnknownIsNoOp | src/main/java/kakao/login/entity/ChatRoom.java:79-87 | removing an employee without a record changes nothing and succeeds, with or without a user |
| ChatRooms.DepartedKeepsUnique | src/main/java/kakao/login/entity/ChatRoom.java:79-87 | removing keeps one record per employee and the number of records |
| ChatRooms.DepartedKeepsConsistent | src/main/java/kakao/login/entity/ChatRoom.java:79-87 | removing keeps every record consistent as the clock advances |
| ChatRooms.HasActiveParticipantIffActiveEmployee | src/main/java/kakao/login/entity/ChatRoom.java:90-107 | hasActiveParticipant holds iff the user is given and some active employee has that user, in agreement with getActiveParticipants |
| ChatRooms.ActiveParticipantsExact | src/main/java/kakao/login/entity/ChatRoom.java:102-107 | getActiveParticipants holds exactly the employees of active records |
| ChatRooms.ActiveParticipantsSnoc | src/main/java/kakao/login/entity/ChatRoom.java:102-107 | the active set of records plus one is the old set plus that employee when it is active |
| ChatRooms.ActiveParticipantsSize | src/main/java/kakao/login/entity/ChatRoom.java:102-107 | with one record per employee the active set is as large as the number of active records |
| ChatRooms.HasParticipantLeftIffRecordLeft | src/main/java/kakao/login/entity/ChatRoom.java:130-134 | hasParticipantLeft holds iff the employee's record has a leave time and is inactive |
| ChatRooms.DisplayNameForCases | src/main/java/kakao/login/entity/ChatRoom.java:114-128 | a group room shows its name; a direct room shows another member's name or "알 수 없음" when there is none |
| ChatRooms.ChatRoom.constructor | src/main/java/kakao/login/entity/ChatRoom.java:50-56 | the new room has the given name, creator and kind, no members, and both times set to now |
| ChatRooms.ChatRoom.AddParticipant | src/main/java/kakao/login/entity/ChatRoom.java:58-77 | the records become Added of the old records and the entity stays valid; the result is a null pointer for an employee without a user, success otherwise |
| ChatRooms.ChatRoom.RemoveParticipant | src/main/java/kakao/login/entity/ChatRoom.java:79-87 | the records become Departed of the old records and the entity stays valid; the result is a null pointer when a record was found for an employee without a user, success otherwise |
| ChatRooms.ChatRoom.UpdateLastActivity | src/main/java/kakao/login/entity/ChatRoom.java:109-111 | the activity time becomes now and nothing else changes |
| ChatRoomQueries.MatchingIds | src/main/java/kakao/login/repository/ChatRoomRepository.java:15-67 | a finder's answer is the stored room ids below the counter whose rooms match, each once, listed (in the model) in ascending id order |
| ChatRoomQueries.MatchingIdsExact | src/main/java/kakao/login/repository/ChatRoomRepository.java:15-67 | an id is found iff it is in range, stored and its room matches |
| ChatRoomQueries.MatchingIdsNone | src/main/java/kakao/login/repository/ChatRoomRepository.java:15-67 | with no stored room matching, nothing is found |
| ChatRoomQueries.Single | src/main/java/kakao/login/repository/ChatRoomRepository.java:43-53 | an Optional finder answers none for no match, the match for one, and IncorrectResultSize for several |
| ChatRoomQueries.FindDirectChatRoomByParticipantIds | src/main/java/kakao/login/repository/ChatRoomRepository.java:35-44 | a found room is stored, non-group, has records for both employees and exactly two records |
| ChatRoomQueries.FindDirectChatRoomByParticipantIdsSymmetric | src/main/java/kakao/login/repository/ChatRoomRepository.java:35-44 | the lookup gives the same answer in either argument order |
| ChatRoomQueries.DirectMatchHoldsExactlyBoth | src/main/java/kakao/login/repository/ChatRoomRepository.java:35-44 | with one record per employee, a matching room holds exactly the two employees' records |
| ChatRoomQueries.DirectMatchIgnoresActivity | src/main/java/kakao/login/repository/ChatRoomRepository.java:35-44 | the lookup ignores active flags: a room both employees left still matches |
| ChatRoomQueries.DirectMatchByUsersHasNoSizeLimit | src/main/java/kakao/login/repository/ChatRoomRepository.java:46-53 | findDirectChatRoom imposes no size limit: a third record does not stop a match |
| ChatRoomQueries.FindByParticipantIdOnlyActive | src/main/java/kakao/login/repository/ChatRoomRepository.java:20-22 | a room is found for an employee iff the employee's record there is active |
| ChatRoomQueries.FindByParticipantUserIdExact | src/main/java/kakao/login/repository/ChatRoomRepository.java:25-27 | a room is found for a user iff one of the user's employees is active there |
| ChatRoomQueries.FindByDepartmentAndSectionNarrows | src/main/java/kakao/login/repository/ChatRoomRepository.java:56-67 | every room the section finder finds, the department finder finds too |
| ChatRoomQueries.FindByDepartmentNameOnlyActive | src/main/java/kakao/login/repository/ChatRoomRepository.java:56-59 | once every record of the department is inactive, the room is not found |
| ChatMessages.BlankDefaults | src/main/java/kakao/login/entity/ChatMessage.java:27-32 | a new document has type CHAT, an empty readBy and no exit, invite or deleted flag |
| ChatMessages.FromEmployeeCopiesSender | src/main/java/kakao/login/entity/ChatMessage.java:53-63 | the employee constructor copies sender id, name and position, "" for no department, stamps the time, and the message is a system message iff the sender is named "시스템" |
| ChatMessages.WithReaderIdempotent | src/main/java/kakao/login/entity/ChatMessage.java:65-69 | addReadBy twice is addReadBy once, and a present reader changes nothing |
| ChatMessages.WithReaderGrows | src/main/java/kakao/login/entity/ChatMessage.java:65-69 | addReadBy keeps the old entries in order, adds at most one and always leaves the reader present |
| ChatMessages.WithReaderKeepsDistinct | src/main/java/kakao/login/entity/ChatMessage.java:65-69 | addReadBy never introduces a duplicate reader |
| ChatMessages.ChatMessage.AddReadBy | src/main/java/kakao/login/entity/ChatMessage.java:65-69 | readBy becomes WithReader of the old list and no other field changes |
| ChatMessageDtos.UnreadCountBounds | src/main/java/kakao/login/dto/request/message/ChatMessageRequestDto.java:44-52 | the unread count is never negative, never above a non-negative snapshot, and zero once as many others have read as were present |
| ChatMessageDtos.UnreadCountIgnoresDuplicates | src/main/java/kakao/login/dto/request/message/ChatMessageRequestDto.java:45-47 | reader lists with the same members give the same count, whatever their order or duplicates |
| ChatMessageDtos.UnreadCountIgnoresSender | src/main/java/kakao/login/dto/request/message/ChatMessageRequestDto.java:46 | the sender's own entry in readBy does not change the count |
| ChatMessageDtos.AddingReaderNeverIncreases | src/main/java/kakao/login/dto/request/message/ChatMessageRequestDto.java:44-52 | recording a reader never raises the count |
| ChatMessageDtos.NewReaderDecrementsCount | src/main/java/kakao/login/dto/request/message/ChatMessageRequestDto.java:44-52 | a new reader other than the sender lowers a positive count by exactly one |
| ChatMessageQueries.InRoom | src/main/java/kakao/login/repository/ChatMessageRepository.java:21-26 | the room's messages are exactly those of the collection with that room id |
| ChatMessageQueries.OldestFirstProperties | src/main/java/kakao/login/repository/ChatMessageRepository.java:26 | findByRoomIdOrderByTimestampAsc is a permutation of the room's messages in non-decreasing timestamp order |
| ChatMessageQueries.NewestFirstProperties | src/main/java/kakao/login/repository/ChatMessageRepository.java:29 | newest-first order is a permutation of the room's messages in non-increasing timestamp order |
| ChatMessageQueries.TopNewestProperties | src/main/java/kakao/login/repository/ChatMessageRepository.java:29-45 | findTopN returns min(N, room size) of the room's messages newest first, none older than any it leaves out |
| ChatMessageQueries.CountsAfterJoinConditions | src/main/java/kakao/login/repository/ChatMessageRepository.java:73-89 | countUnreadMessagesAfterJoin counts a message only after the join time, not sent or read by the user and not deleted; of system notices only exit notices are left out |
| ChatMessageQueries.CountsUnreadExcludesSystemAndDeleted | src/main/java/kakao/login/repository/ChatMessageRepository.java:62-70 | countUnreadMessages leaves out every system notice and every deleted message |
| ChatMessageQueries.OwnMessagesNeverCount | src/main/java/kakao/login/repository/ChatMessageRepository.java:62-89 | a user's own messages never count toward the user's unread total in either query |
| ChatMessageQueries.FindUnreadMessagesExact | src/main/java/kakao/login/repository/ChatMessageRepository.java:34-35 | findUnreadMessagesByUserId returns exactly the messages of the given rooms the user neither read nor sent |
| FileStorage.Extension | src/main/java/kakao/login/service/FileStorageService.java:40-44 | the kept extension is empty or the suffix from the last dot, which is past index 0 |
| FileStorage.ExtensionCases | src/main/java/kakao/login/service/FileStorageService.java:40-44 | the extension of the cleaned name is kept exactly when its last dot is past index 0, and then starts with its only dot; ".bashrc" or a name without a dot gets none |
| FileStorage.UploadsBranchUnreachable | src/main/java/kakao/login/service/FileStorageService.java:83-88 | a path without '/' never contains "uploads/", so deleteFile's second branch is dead and it names the same file as loadAsResource |
| FileStorage.StoredPathRoundTrip | src/main/java/kakao/login/service/FileStorageService.java:38-88 | every path store returns, that is, one whose stored name holds no '/', leads loadAsResource and deleteFile back to the stored name, behind any prefix |
| FileStorage.StorableCases | src/main/java/kakao/login/service/FileStorageService.java:38-47 | the stored name can be copied into the flat upload directory exactly when neither the UUID text nor the kept extension holds a '/'; a cleaned name without '/' always can |
| FileStorage.DottedDirectoryRefused | src/main/java/kakao/login/service/FileStorageService.java:38-52 | a cleaned name with a dot in a directory part, such as "v1.2/notes", keeps an extension holding a '/', so store cannot copy it |
| FileStorage.FileStorageService.Store | src/main/java/kakao/login/service/FileStorageService.java:38-55 | a null name fails with nothing stored; a stored name holding a '/' (a subdirectory that does not exist) fails the copy with a runtime error and nothing stored; otherwise the name made from the UUID and the extension of the name after StringUtils.cleanPath is added to the directory and its public path returned |
| FileStorage.FileStorageService.LoadAsResource | src/main/java/kakao/login/service/FileStorageService.java:57-75 | the answer succeeds iff the last path segment names a stored file, and then is that name; otherwise a runtime error |
| FileStorage.FileStorageService.DeleteFile | src/main/java/kakao/login/service/FileStorageService.java:77-101 | a null or empty path changes nothing; otherwise exactly the named file is removed, and it never fails |
| MessageService.EmployeeOfUser | src/main/java/kakao/login/repository/EmployeeRepository.java:10 | a found employee is in the directory under that user id; none is found for a null id, and otherwise only when no employee has that user |
| MessageServiceProperties.PreviewLabelCases | src/main/java/kakao/login/service/ChatMessageService.java:206-215 | a message previews as the photo label, the file label or its own content; the attachment type is compared ignoring case, so "IMAGE" and "File" are labelled while "images" or no type previews as the content |
| MessageService.SystemMessage | src/main/java/kakao/login/service/ChatMessageService.java:445-461 | a system notice of that room, sender, content and time with an empty readBy, flagged as a date separator exactly when sent by SYSTEM with a "yyyy년 MM월 dd일" label |
| MessageService.Counts | src/main/java/kakao/login/service/ChatMessageService.java:225-232 | the unread-count map is keyed by exactly the user ids of the room's active participants |
| MessageService.RecipientIds | src/main/java/kakao/login/service/ChatMessageService.java:274-282 | a user id is a recipient exactly when some message was sent by it and it is not the sender |
| MessageService.FirstRecordOfUser | src/main/java/kakao/login/service/ChatMessageService.java:62-69 | a found record is inside the room's list and belongs to that user; a record without a user met first is a null dereference |
| MessageService.WithReaderAll | src/main/java/kakao/login/service/ChatMessageService.java:644-660 | the returned list has each fetched message with the user added to its readers, in order |
| MessageService.ChatMessageService.InsertDateSeparatorIfNeeded | src/main/java/kakao/login/service/ChatMessageService.java:598-629 | the stores become InsertDateSeparatorIfNeededSpec of the old stores |
| MessageService.ChatMessageService.SendMessage | src/main/java/kakao/login/service/ChatMessageService.java:172-242 | the stores and the answer are SendMessageSpec of the old stores |
| MessageService.ChatMessageService.Publish | src/main/java/kakao/login/service/ChatMessageService.java:199-241 | the stores and the answer are PublishSpec: save the message, store the room, publish the message frame and the unread counts |
| MessageService.ChatMessageService.SendDirectMessage | src/main/java/kakao/login/service/ChatMessageService.java:246-349 | the stores and the answer are SendDirectMessageSpec of the old stores |
| MessageService.ChatMessageService.ResurrectRecipients | src/main/java/kakao/login/service/ChatMessageService.java:284-290 | the room's records become Resurrected of the old records: each recipient with an employee who is not active is re-added |
| MessageService.ChatMessageService.SaveMessageEntity | src/main/java/kakao/login/service/ChatMessageService.java:467-492 | the stores and the answer are SaveMessageEntitySpec of the old stores |
| MessageService.ChatMessageService.CreateChatRoom | src/main/java/kakao/login/service/ChatMessageService.java:113-124 | the stores and the answer are CreateChatRoomSpec of the old stores |
| MessageService.ChatMessageService.MarkMessagesAsRead | src/main/java/kakao/login/service/ChatMessageService.java:365-412 | the stores and the answer are MarkMessagesAsReadSpec of the old stores |
| MessageService.ChatMessageService.GetMessages | src/main/java/kakao/login/service/ChatMessageService.java:53-110 | the stores and the answer are GetMessagesSpec of the old stores |
| MessageService.ChatMessageService.MarkAllMessagesAsRead | src/main/java/kakao/login/service/ChatMessageService.java:632-697 | the stores and the answer are MarkAllMessagesAsReadSpec of the old stores |
| MessageService.ChatMessageService.MarkEachUnread | src/main/java/kakao/login/service/ChatMessageService.java:644-660 | the loop leaves the stores as MarkAll of the old ones and returns every fetched message with the user among its readers |
| MessageService.ChatMessageService.MarkOneUnread | src/main/java/kakao/login/service/ChatMessageService.java:645-659 | one pass adds the reader to the stored document and returns the message with the reader added |
| MessageService.ChatMessageService.DeleteMessage | src/main/java/kakao/login/service/ChatMessageService.java:499-536 | the stores and the answer are DeleteMessageSpec of the old stores |
| MessageServiceProperties.AddedKeepsActive | src/main/java/kakao/login/entity/ChatRoom.java:58-77 | adding a participant never deactivates anyone |
| MessageServiceProperties.AddedActivates | src/main/java/kakao/login/service/ChatMessageService.java:194-197 | adding a directory employee with rejoin leaves that employee's user active and keeps the records unique, consistent and current |
| MessageServiceProperties.ResurrectedActivates | src/main/java/kakao/login/service/ChatMessageService.java:273-292 | the invite loop leaves every recipient who has an employee active, keeps every earlier active member and keeps the records unique |
| MessageServiceProperties.AddedMatchesStaff | src/main/java/kakao/login/entity/ChatRoom.java:58-77 | adding a directory employee keeps every record's employee in the directory |
| MessageServiceProperties.AddedNoUserless | src/main/java/kakao/login/service/ChatMessageService.java:194-197 | re-adding the sender, who has a user, brings in no active member without one, so the later count map cannot fail because of it |
| MessageServiceProperties.ResurrectedNoUserless | src/main/java/kakao/login/service/ChatMessageService.java:273-292 | the invite loop brings in no active member without a user either |
| MessageServiceProperties.ResurrectedKeepsUnique | src/main/java/kakao/login/service/ChatMessageService.java:284-290 | the invite loop keeps one record per employee |
| MessageServiceProperties.SendMessageFailures | src/main/java/kakao/login/service/ChatMessageService.java:176-193 | a missing room fails with nothing changed; an active member without a user fails the snapshot count with only the separator written; an unknown sender fails; a null preview fails after the room was stored with it; success exactly otherwise |
| MessageServiceProperties.SendMessageErrors | src/main/java/kakao/login/service/ChatMessageService.java:172-242 | sendMessage fails only with a runtime exception or a null pointer |
| MessageServiceProperties.SendMessageSaves | src/main/java/kakao/login/service/ChatMessageService.java:185-219 | the saved message is the sent one with the count of other active members and the sender added to readBy; the room shows its preview and activity time |
| MessageServiceProperties.SendMessageActivates | src/main/java/kakao/login/service/ChatMessageService.java:194-197 | after a successful send the sender is active, and every member active before still is |
| MessageServiceProperties.PublishOutcome | src/main/java/kakao/login/service/ChatMessageService.java:204-239 | the shared tail stores the room, saves the message and fails, with a null pointer, exactly when an active member has no user or the preview is null |
| MessageServiceProperties.InsertDateSeparatorKeepsValid | src/main/java/kakao/login/service/ChatMessageService.java:598-629 | the date separator keeps the stores valid |
| MessageServiceProperties.PublishKeepsValid | src/main/java/kakao/login/service/ChatMessageService.java:204-239 | publishing a stored room with unique records keeps the stores valid |
| MessageServiceProperties.SendMessageKeepsValid | src/main/java/kakao/login/service/ChatMessageService.java:172-242 | sending keeps the stores valid |
| MessageServiceProperties.SendDirectMessageOutcome | src/main/java/kakao/login/service/ChatMessageService.java:246-262 | group and missing rooms are refused with nothing changed; an active member without a user fails the snapshot count with only the separator written |
| MessageServiceProperties.SendDirectMessageSaves | src/main/java/kakao/login/service/ChatMessageService.java:246-349 | a success sends the content from the sender's employee with the snapshot count, and the room shows that content and time; an invite message has an empty readBy; a plain one has the sender as its only reader |
| MessageServiceProperties.SendDirectMessageActivates | src/main/java/kakao/login/service/ChatMessageService.java:268-290 | after a successful direct send the sender and everyone active before are active; an invitation also leaves every earlier sender with an employee active |
| MessageServiceProperties.SendDirectMessageErrors | src/main/java/kakao/login/service/ChatMessageService.java:246-349 | the call fails with an illegal argument exactly for a group room, and otherwise only with a runtime exception or a null pointer |
| MessageServiceProperties.SendDirectMessageKeepsValid | src/main/java/kakao/login/service/ChatMessageService.java:246-349 | sendDirectMessage keeps the stores valid |
| MessageServiceProperties.FewMessagesNeedSeparator | src/main/java/kakao/login/service/ChatMessageService.java:603-613 | a room with fewer than two messages always gets a separator |
| MessageServiceProperties.AppendedInNewestFirst | src/main/java/kakao/login/repository/ChatMessageRepository.java:21-89 | a message appended for a room is among the room's messages |
| MessageServiceProperties.AppendedHeadsNewestFirst | src/main/java/kakao/login/service/ChatMessageService.java:601-622 | a message later than every message of its room heads the room's newest-first order |
| MessageServiceProperties.AppendedIsNewest | src/main/java/kakao/login/service/ChatMessageService.java:601-622 | that message is then the newer of the two newest |
| MessageServiceProperties.SeparatorOncePerDay | src/main/java/kakao/login/service/ChatMessageService.java:598-629 | running the check again on the same day, after it ran for a room whose messages all precede it, changes nothing: at most one separator per day |
| MessageServiceProperties.MarkMessagesAsReadOutcome | src/main/java/kakao/login/service/ChatMessageService.java:365-412 | fails only for an unknown message, or after the save for a missing room or an active member without a user, publishing nothing then; a message the user sent or already read is left alone; otherwise exactly that document gains the reader |
| MessageServiceProperties.MarkMessagesAsReadIdempotent | src/main/java/kakao/login/service/ChatMessageService.java:365-412 | marking the same message twice changes nothing the second time |
| MessageServiceProperties.MarkMessagesAsReadLowersUnread | src/main/java/kakao/login/service/ChatMessageService.java:372-377 | a first reading by someone other than the sender lowers the message's positive unread count by one |
| MessageServiceProperties.MarkMessagesAsReadGrows | src/main/java/kakao/login/service/ChatMessageService.java:365-412 | whatever happens, only readers are added, and a message the user did not send ends up read by the user |
| MessageServiceProperties.CreateChatRoomOutcome | src/main/java/kakao/login/service/ChatMessageService.java:113-124 | succeeds exactly when the creator has an employee; the room takes the next id with the creator as its one active member and the creation notice as preview |
| MessageServiceProperties.SaveMessageEntityOutcome | src/main/java/kakao/login/service/ChatMessageService.java:467-492 | the message is stored even when the room is missing; otherwise the room takes its preview and activity time |
| MessageServiceProperties.DeletedProperties | src/main/java/kakao/login/service/ChatMessageService.java:510-523 | a deleted message keeps identity, sender, time and readers, shows the deletion notice, loses its attachment, is unread for nobody, and deleting again changes nothing |
| MessageServiceProperties.DeleteMessageOutcome | src/main/java/kakao/login/service/ChatMessageService.java:499-536 | an unknown message, a null sender or a requester who is not the sender fails with nothing changed; the sender's request soft-deletes exactly that document, removes its file and publishes it |
| MessageServiceProperties.MarkEachGrows | src/main/java/kakao/login/service/ChatMessageService.java:95-99 | getMessages' walk only adds readers and never touches rooms or files |
| MessageServiceProperties.MarkEachSucceeds | src/main/java/kakao/login/service/ChatMessageService.java:95-99 | the walk succeeds when every message's room exists and has no active member without a user |
| MessageServiceProperties.MarkEachReads | src/main/java/kakao/login/service/ChatMessageService.java:95-99 | after a successful walk every message the user did not send is read by the user |
| MessageServiceProperties.WindowProperties | src/main/java/kakao/login/service/ChatMessageService.java:80-92 | the fetch window holds exactly the room's stored messages after the cutoff, oldest first |
| MessageServiceProperties.SliceProperties | src/main/java/kakao/login/service/ChatMessageService.java:102-109 | a page holds at most size consecutive window entries from offset and reports the window's size as total |
| MessageServiceProperties.WindowIsSnapshot | src/main/java/kakao/login/service/ChatMessageService.java:80-92 | the window of a valid collection is a snapshot of it |
| MessageServiceProperties.MarkWindow | src/main/java/kakao/login/service/ChatMessageService.java:80-99 | marking a window marks every message after its cutoff, and succeeds when the room exists with no active member lacking a user |
| MessageServiceProperties.GetMessagesTrivialCases | src/main/java/kakao/login/service/ChatMessageService.java:53-61 | a missing room fails and a caller who is not active gets the empty page, both with nothing changed |
| MessageServiceProperties.GetMessagesOnlyAddsReaders | src/main/java/kakao/login/service/ChatMessageService.java:53-110 | in every case getMessages only adds readers |
| MessageServiceProperties.GetMessagesOutcome | src/main/java/kakao/login/service/ChatMessageService.java:53-110 | an active caller whose room's records all hold a user gets a page; a page is read off the caller's first record: the messages after the room's creation when that record never left or joined before the room was created, else those after its join time; afterwards every message after that cutoff the caller did not send is read by the caller |
| MessageServiceProperties.UnreadStoredAscending | src/main/java/kakao/login/repository/ChatMessageRepository.java:21-89 | a room's unread messages are stored in ascending id order |
| MessageServiceProperties.MarkOneEffect | src/main/java/kakao/login/service/ChatMessageService.java:645-659 | one pass of the loop adds the reader to exactly the stored document |
| MessageServiceProperties.MarkAllEffect | src/main/java/kakao/login/service/ChatMessageService.java:644-660 | the loop adds the reader to exactly the documents it was given |
| MessageServiceProperties.EmployeeIdForCases | src/main/java/kakao/login/service/ChatMessageService.java:547-593 | a user id that parses as a long is taken as the employee id itself; any other resolves to the id of the employee holding that user, or to 0 when no employee does |
| MessageServiceProperties.GetUnreadCountCases | src/main/java/kakao/login/service/ChatMessageService.java:547-575 | with no record for the resolved employee id in the room, or no such room, the count is 0; otherwise it is the after-join count from the first such record's joinedAt, with no fallback to the room's creation or the record's leave time |
| MessageServiceProperties.NoneUnreadCounts | src/main/java/kakao/login/service/ChatMessageService.java:547-575 | with nothing unread left the finders return nothing and the count after any join time is zero |
| MessageServiceProperties.UnreadIds | src/main/java/kakao/login/service/ChatMessageService.java:639-641 | the ids of a room's unread messages are the positions of the matching documents |
| MessageServiceProperties.MarkUnreadEffect | src/main/java/kakao/login/service/ChatMessageService.java:639-660 | the loop over the unread messages adds the user to exactly those, leaving nothing unread |
| MessageServiceProperties.MarkAllMessagesAsReadNull | src/main/java/kakao/login/service/ChatMessageService.java:634-636 | a null user changes nothing and gets the empty list |
| MessageServiceProperties.MarkAllMessagesAsReadDocs | src/main/java/kakao/login/service/ChatMessageService.java:632-697 | the user is added to exactly the room's messages they had not read; rooms and files stay as they were |
| MessageServiceProperties.MarkAllMessagesAsReadClearsCount | src/main/java/kakao/login/service/ChatMessageService.java:632-697 | afterwards the user's unread count in the room is zero |
| MessageServiceProperties.MarkAllMessagesAsReadResult | src/main/java/kakao/login/service/ChatMessageService.java:632-697 | succeeds exactly when the room exists and every active member has a user (a null pointer otherwise), and returns each formerly unread message with the user among its readers |
| RoomService.ValidSplits | src/main/java/kakao/login/entity/ChatRoom.java:50-134 | the stores are valid exactly when the room table is valid and every message document sits at its own id |
| RoomService.FindDirectEitherOrder | src/main/java/kakao/login/service/ChatRoomService.java:59-65 | a found room is stored and is a direct room holding both employees; an ambiguous lookup fails with IncorrectResultSize |
| RoomService.LookupListed | src/main/java/kakao/login/service/ChatRoomService.java:92-97 | a listed id that succeeds parses to the id of an employee in the directory; otherwise the failure is a number format or runtime exception |
| RoomService.ListedStep | src/main/java/kakao/login/service/ChatRoomService.java:92-97 | a pass of the loop succeeds exactly when the lookup finds an employee who has a user; the lookup's own failure is kept, and a user-less employee fails with a null pointer |
| RoomService.ToDto | src/main/java/kakao/login/service/ChatRoomService.java:218-226 | the DTO keeps the room's id, kind and last activity; a group room is shown under its own name; a direct room under a non-null label, another member's name or "알 수 없음", and the conversion fails, with a null dereference, exactly when the member picked has a null name |
| RoomService.ChatRoomService.DirectRoom | src/main/java/kakao/login/service/ChatRoomService.java:59-84 | the table and the answer become DirectRoomFor of the old table |
| RoomService.ChatRoomService.GetOrCreateDirectChatRoom | src/main/java/kakao/login/service/ChatRoomService.java:34-85 | the table and the answer become GetOrCreateDirectChatRoomSpec of the old table |
| RoomService.ChatRoomService.GetOrCreateDirectChatRoomByEmployeeId | src/main/java/kakao/login/service/ChatRoomService.java:229-268 | the table and the answer become GetOrCreateDirectChatRoomByEmployeeIdSpec of the old table |
| RoomService.ChatRoomService.CreateGroupChatRoom | src/main/java/kakao/login/service/ChatRoomService.java:89-99 | the table and the answer become CreateGroupChatRoomSpec of the old table |
| RoomService.ChatRoomService.CreateChatRoom | src/main/java/kakao/login/service/ChatRoomService.java:123-126 | the table and the room become CreateChatRoomSpec of the old table |
| RoomService.ChatRoomService.GetMainChatRoom | src/main/java/kakao/login/service/ChatRoomService.java:101-109 | the table and the room become MainChatRoomSpec of the old table |
| RoomService.ChatRoomService.JoinMainChatRoom | src/main/java/kakao/login/service/ChatRoomService.java:112-120 | the table and the answer become JoinMainChatRoomSpec of the old table |
| RoomService.ChatRoomService.AddUserToChatRoom | src/main/java/kakao/login/service/ChatRoomService.java:146-162 | the table and the answer become AddUserToChatRoomSpec of the old table |
| RoomService.ChatRoomService.RemoveUserFromChatRoom | src/main/java/kakao/login/service/ChatRoomService.java:165-196 | the table and the answer become RemoveUserFromChatRoomSpec of the old table |
| RoomServiceProperties.FindDirectEitherOrderIsFirst | src/main/java/kakao/login/service/ChatRoomService.java:59-65 | the swapped second lookup never changes the answer, since the match is symmetric in the two employees |
| RoomServiceProperties.FindDirectNoneIffNoMatch | src/main/java/kakao/login/service/ChatRoomService.java:59-65 | a new direct room is created exactly when no stored direct room matches the two employees in either order |
| RoomServiceProperties.ReactivatedRecords | src/main/java/kakao/login/service/ChatRoomService.java:68-73 | in a reused room the record of a party who left is rejoined now, every other record is unchanged, and nothing is added |
| RoomServiceProperties.ReactivatedBothActive | src/main/java/kakao/login/service/ChatRoomService.java:68-73 | with consistent records both parties are active in a reused room |
| RoomServiceProperties.DirectMatchRecords | src/main/java/kakao/login/repository/ChatRoomRepository.java:34-44 | a room the direct lookup matches holds a record for each party |
| RoomServiceProperties.DirectRoomReuses | src/main/java/kakao/login/service/ChatRoomService.java:68-76 | a matching room keeps its id and records, its departed parties rejoin, its activity is refreshed, and no room is created |
| RoomServiceProperties.DirectRoomCreates | src/main/java/kakao/login/service/ChatRoomService.java:79-84 | with no match a fresh "DirectChat" room holding exactly the two parties, both just joined, is stored under the next id |
| RoomServiceProperties.GetOrCreateDirectChatRoomFailures | src/main/java/kakao/login/service/ChatRoomService.java:34-55 | fails with IllegalStateException exactly for a user without an account or an employee, with the table untouched; the only other failure is an ambiguous lookup |
| RoomServiceProperties.DirectRoomActivates | src/main/java/kakao/login/service/ChatRoomService.java:59-84 | both parties are active in the returned room, reused or created |
| RoomServiceProperties.GetOrCreateDirectChatRoomByEmployeeIdCases | src/main/java/kakao/login/service/ChatRoomService.java:229-268 | an unknown employee gives BAD_REQUEST and one without a user a null dereference, before any lookup; otherwise it acts as the by-user variant |
| RoomServiceProperties.GetOrCreateDirectChatRoomKeepsValid | src/main/java/kakao/login/service/ChatRoomService.java:34-85 | getOrCreateDirectChatRoom keeps the table valid |
| RoomServiceProperties.DirectRoomKeepsValid | src/main/java/kakao/login/service/ChatRoomService.java:59-84 | the shared direct-room tail keeps the table valid |
| RoomServiceProperties.AddEachSucceeds | src/main/java/kakao/login/service/ChatRoomService.java:92-97 | the loop succeeds iff every listed id parses and names an employee who has a user |
| RoomServiceProperties.AddEachFailsAtFirst | src/main/java/kakao/login/service/ChatRoomService.java:92-97 | a failing loop fails with the error of the first id that does not name an employee with a user |
| RoomServiceProperties.AddEachRecords | src/main/java/kakao/login/service/ChatRoomService.java:92-97 | a successful loop leaves one record per employee holding exactly the starting and the listed ids, all freshly joined when the start was |
| RoomServiceProperties.CreateGroupChatRoomResult | src/main/java/kakao/login/service/ChatRoomService.java:89-99 | the empty group room is stored first; the call succeeds iff the list is present and every entry names an employee who has a user, and the room then holds exactly the listed employees, all freshly joined |
| RoomServiceProperties.CreateGroupChatRoomKeepsValid | src/main/java/kakao/login/service/ChatRoomService.java:89-99 | createGroupChatRoom keeps the table valid |
| RoomServiceProperties.MainChatRoomExisting | src/main/java/kakao/login/service/ChatRoomService.java:101-104 | with a room whose name contains "Main Room" nothing is stored and some room whose name contains "Main Room" is returned (in the model: the lowest id) |
| RoomServiceProperties.MainChatRoomCreated | src/main/java/kakao/login/service/ChatRoomService.java:101-108 | with none, a new empty group room "Main Room" created by "system" is stored under the next id |
| RoomServiceProperties.MainChatRoomChoice | src/main/java/kakao/login/service/ChatRoomService.java:101-109 | either way the returned main room is stored, named "Main Room", and the table stays valid |
| RoomServiceProperties.JoinMainKeepsDeparted | src/main/java/kakao/login/service/ChatRoomService.java:112-120 | joinMainChatRoom never reactivates a member who left: the inactive record is kept as it is |
| RoomServiceProperties.JoinMainAddsNewcomer | src/main/java/kakao/login/service/ChatRoomService.java:112-120 | an employee without a record joins the main room as a fresh active member |
| RoomServiceProperties.JoinMainChatRoomKeepsValid | src/main/java/kakao/login/service/ChatRoomService.java:112-120 | joinMainChatRoom keeps the table valid |
| RoomServiceProperties.AddUserToChatRoomFailures | src/main/java/kakao/login/service/ChatRoomService.java:146-162 | fails with a RuntimeException exactly for a missing room or employee, and then changes nothing |
| RoomServiceProperties.AddUserToChatRoomActivates | src/main/java/kakao/login/service/ChatRoomService.java:146-162 | the user's employee is active in the room with one record, other records untouched and the activity refreshed |
| RoomServiceProperties.AddUserToChatRoomKeepsValid | src/main/java/kakao/login/service/ChatRoomService.java:146-162 | addUserToChatRoom keeps the table valid |
| RoomServiceProperties.RemoveUserFromChatRoomFailures | src/main/java/kakao/login/service/ChatRoomService.java:165-178 | fails with a RuntimeException exactly for a missing room or employee, changing nothing; a user who is not active is still processed |
| RoomServiceProperties.RemoveUserFromChatRoomOutcome | src/main/java/kakao/login/service/ChatRoomService.java:179-196 | the room is deleted and null returned exactly when nobody is active once the user's record has left; otherwise it is stored with that record left now |
| RoomServiceProperties.ParticipantUserIdsExact | src/main/java/kakao/login/service/ChatRoomService.java:210-216 | getChatRoomParticipants gives the empty set for a missing room, fails with a null pointer exactly when an active record's employee has no user, and otherwise gives exactly the users active in the room |
| RoomServiceProperties.RemoveUserFromChatRoomKeepsValid | src/main/java/kakao/login/service/ChatRoomService.java:165-196 | removeUserFromChatRoom keeps the table valid |
| RoomListProperties.ListItemListed | src/main/java/kakao/login/service/ChatMessageService.java:707-730 | the entry built for a stored room describes that room for the user |
| RoomListProperties.ParticipantRoomsExact | src/main/java/kakao/login/repository/ChatRoomRepository.java:24-27 | a stored room is among the loaded rooms exactly when the user is active in it |
| RoomListProperties.ParticipantRoomsStored | src/main/java/kakao/login/repository/ChatRoomRepository.java:24-27 | each loaded room is the stored room under its own id |
| RoomListProperties.EntryOfActiveRoom | src/main/java/kakao/login/service/ChatMessageService.java:705-730 | each room the user is active in contributes its entry |
| RoomListProperties.SortedItemsSame | src/main/java/kakao/login/service/ChatMessageService.java:731 | sorting keeps exactly the same entries |
| RoomListProperties.SortedItemsByActivity | src/main/java/kakao/login/service/ChatMessageService.java:731 | the sorted entries are most recently active first |
| RoomListProperties.GetUserChatRoomsSorts | src/main/java/kakao/login/service/ChatMessageService.java:702-736 | the listing fails exactly when building the entries does, and otherwise sorts them |
| RoomListProperties.GetUserChatRoomsSucceeds | src/main/java/kakao/login/service/ChatMessageService.java:702-736 | the listing succeeds exactly when every room the user is active in has a display name |
| RoomListProperties.GetUserChatRoomsSound | src/main/java/kakao/login/service/ChatMessageService.java:702-736 | on success every entry describes a room the user is active in |
| RoomListProperties.GetUserChatRoomsComplete | src/main/java/kakao/login/service/ChatMessageService.java:702-736 | on success every room the user is active in has an entry |
| RoomListProperties.GetUserChatRoomsOrdered | src/main/java/kakao/login/service/ChatMessageService.java:702-736 | the entries are most recently active first |
| ChatControllers.MessageFromRequest | src/main/java/kakao/login/service/ChatMessageService.java:351-358 | fails with a RuntimeException exactly when the sender has no employee; otherwise a fresh plain message of that room, sender, content and time with an empty readBy |
| ChatControllers.RoomIdOf | src/main/java/kakao/login/controller/ChatController.java:310 | a missing room id is a null dereference; a present one succeeds exactly when it parses as a number, and then is that number |
| ChatControllers.ChatController.Answered | src/main/java/kakao/login/controller/ChatController.java:94-95 | the answer is the room's DTO for the caller, or the conversion's failure |
| ChatControllers.ChatController.CreateChatRoom | src/main/java/kakao/login/controller/ChatController.java:85-96 | the stores and the answer become CreateChatRoomEndpointSpec of the old stores |
| ChatControllers.ChatController.CreateGroupChatRoom | src/main/java/kakao/login/controller/ChatController.java:255-266 | the stores and the answer become the group endpoint's spec of the old stores |
| ChatControllers.ChatController.CreateDirectChatRoom | src/main/java/kakao/login/controller/ChatController.java:222-252 | the stores and the answer become the direct endpoint's spec of the old stores |
| ChatControllers.ChatController.SendUserMessage | src/main/java/kakao/login/controller/ChatController.java:161-166 | the stores become UserMessageStage of the old stores: a non-blank text is sent as the inviter's message |
| ChatControllers.ChatController.AddInvitee | src/main/java/kakao/login/controller/ChatController.java:168-175 | the stores and the answer become AddInviteeStage of the old stores |
| ChatControllers.ChatController.InviteParticipant | src/main/java/kakao/login/controller/ChatController.java:135-176 | the stores and the answer become the invite endpoint's spec of the old stores |
| ChatControllers.ChatController.Invite | src/main/java/kakao/login/controller/ChatController.java:150-175 | the stores and the answer become the spec of the invitation after the guards: notice, optional text, then the invitee added |
| ChatControllers.ChatController.ExitNoticeStep | src/main/java/kakao/login/controller/ChatController.java:366-374 | the stores become ExitNoticeStage of the old stores: a group room gets the exit notice saved and published |
| ChatControllers.ChatController.ExitChatRoom | src/main/java/kakao/login/controller/ChatController.java:340-391 | the stores and the reply become ExitChatRoomSpec of the old stores |
| ChatControllers.ChatController.HandleChatMessage | src/main/java/kakao/login/controller/ChatController.java:304-322 | the stores and the answer become HandleChatMessageSpec of the old stores |
| ChatControllers.ChatController.Route | src/main/java/kakao/login/controller/ChatController.java:314-321 | a direct room goes through sendDirectMessage and a group room through sendMessage, and the saved message is published, as RouteMessage says |
| ChatControllers.ChatController.SendDirectMessage | src/main/java/kakao/login/controller/ChatController.java:324-338 | the stores and the answer become the direct-message endpoint's spec of the old stores, in which an absent invite flag means false and one present as null throws |
| ChatControllers.ChatController.DeleteMessage | src/main/java/kakao/login/controller/ChatController.java:518-534 | the stores and the answer become DeleteMessageEndpointSpec of the old stores |
| ChatControllers.ChatController.UploadAttachment | src/main/java/kakao/login/controller/ChatController.java:396-483 | the stores and the answer become the upload endpoint's spec of the old stores |
| ChatControllers.ChatController.StoreAttachment | src/main/java/kakao/login/controller/ChatController.java:435-482 | the stores and the answer become StoreAttachmentSpec: a name store cannot copy fails with nothing stored; otherwise the file is stored, and once reachable the attachment message is saved and published |
| ChatControllers.ChatController.PublishCounts | src/main/java/kakao/login/controller/ChatController.java:683-712 | the stores become CountsFrameSpec of the old stores: the room must exist and every active member's unread count is published |
| ChatControllers.ChatController.MarkRoomAsRead | src/main/java/kakao/login/controller/ChatController.java:683-712 | the stores become MarkRoomAsReadSpec of the old stores |
| ChatControllers.ChatController.MarkMessageAsRead | src/main/java/kakao/login/controller/ChatController.java:194-219 | the stores become the single-message read endpoint's spec of the old stores |
| ChatControllers.ChatController.Deliver | src/main/java/kakao/login/controller/ChatController.java:566-585 | one delivery finds or creates the direct room and sends the text there, as DeliverSpec says, and keeps the stores valid |
| ChatControllers.ChatController.BroadcastEach | src/main/java/kakao/login/controller/ChatController.java:617-639 | the loop over the targets becomes BroadcastEachSpec of the old stores and keeps them valid |
| ChatControllers.ChatController.BroadcastToAll | src/main/java/kakao/login/controller/ChatController.java:558-588 | the stores and the answer become the broadcast-to-all spec of the old stores |
| ChatControllers.ChatController.BroadcastToDepartment | src/main/java/kakao/login/controller/ChatController.java:594-645 | the stores and the answer become the department broadcast's spec of the old stores |
| ChatControllers.ChatController.SendOne | src/main/java/kakao/login/controller/ChatController.java:665-679 | one requested id becomes the spec's entry, an error entry when anything fails, and the stores stay valid |
| ChatControllers.ChatController.SendToMultipleUsers | src/main/java/kakao/login/controller/ChatController.java:652-681 | the stores and the answer become the multi-user spec of the old stores |
| ControllerProperties.ExitChatRoomGuards | src/main/java/kakao/login/controller/ChatController.java:347-363 | 404 exactly for a caller without an employee or a missing room, 403 exactly for a caller not active there, with nothing changed |
| ControllerProperties.ExitChatRoomNotice | src/main/java/kakao/login/controller/ChatController.java:366-374 | leaving a group room saves exactly one exit notice with the employee's name under the next id; leaving a direct room saves none |
| ControllerProperties.ExitNoticeKeepsValid | src/main/java/kakao/login/controller/ChatController.java:366-374 | the notice stage keeps the room table valid, changing only the room's preview and activity |
| ControllerProperties.ExitChatRoomRemovesCaller | src/main/java/kakao/login/controller/ChatController.java:340-391 | with the deleted room handled, a member who may leave gets 200 and afterwards the room is gone or the caller is no longer active in it |
| ControllerProperties.ExitLastMemberAsWritten | src/main/java/kakao/login/controller/ChatController.java:377-381 | as written, the last active member's exit deletes the room and then dereferences the null it returns: 500 although the exit took effect |
| ControllerProperties.SendMessageKeepsPayload | src/main/java/kakao/login/service/ChatMessageService.java:172-242 | sendMessage saves the message it was given, with its room, content and flags kept |
| ControllerProperties.UserMessageStageGrowsEvents | src/main/java/kakao/login/controller/ChatController.java:161-166 | the inviter's own message only ever adds events |
| ControllerProperties.InviteParticipantGuards | src/main/java/kakao/login/controller/ChatController.java:140-148 | a non-numeric employee id fails first, then a missing room; 403 comes exactly from a caller not active in the room, nothing changed |
| ControllerProperties.AddInviteeStageAnswers | src/main/java/kakao/login/controller/ChatController.java:168-175 | adding the invitee either fails or answers 200 with the room |
| ControllerProperties.InviteParticipantAnnounces | src/main/java/kakao/login/controller/ChatController.java:150-159 | a successful invitation published the saved notice naming inviter and invitee, flagged as an invite |
| ControllerProperties.InviteParticipantIgnoresBlank | src/main/java/kakao/login/controller/ChatController.java:161-166 | a blank text is treated as none: only text worth sending is sent after the notice |
| ControllerProperties.CreateDirectChatRoomGuards | src/main/java/kakao/login/controller/ChatController.java:222-252 | 400 INVALID_REQUEST exactly for a missing or non-numeric id; 403 NP exactly when both employees exist and neither is the caller; a room is answered only to one of its two members |
| ControllerProperties.HandleChatMessageRoutes | src/main/java/kakao/login/controller/ChatController.java:304-322 | routing by kind means the handler never meets sendDirectMessage's refusal of a group room; a delivered message is published to its room |
| ControllerProperties.DeleteMessageAnswers | src/main/java/kakao/login/controller/ChatController.java:518-534 | 403 NP exactly when the service refused the requester, 200 exactly when the deletion went through |
| ControllerProperties.UploadAttachmentFailures | src/main/java/kakao/login/controller/ChatController.java:402-460 | a sender without an employee changes nothing, a missing file name or one store cannot copy stores no file, and a file that never becomes reachable saves no message |
| ControllerProperties.UploadAttachmentSaves | src/main/java/kakao/login/controller/ChatController.java:409-482 | a successful upload stores the file and saves one attachment message, typed image iff the content type starts with "image/", read by its sender only, counting the other active members |
| ControllerProperties.AttachmentPreview | src/main/java/kakao/login/service/ChatMessageService.java:478-484 | an attachment message previews as the label of its type |
| ControllerProperties.MarkRoomAsReadBroadcasts | src/main/java/kakao/login/controller/ChatController.java:683-712 | afterwards the unread counts of every active member are published and the reader's own count is zero |
| ControllerProperties.WithoutSender | src/main/java/kakao/login/controller/ChatController.java:566-568 | a target survives exactly when it is not the sender's own employee |
| ControllerProperties.BroadcastSkipsSender | src/main/java/kakao/login/controller/ChatController.java:617-621 | running the loop over the targets without the sender's own entries changes nothing |
| ControllerProperties.BroadcastRecordsTargets | src/main/java/kakao/login/controller/ChatController.java:617-639 | a completed broadcast records a message id for exactly the targets' users other than the sender, besides earlier entries |
| ControllerProperties.BroadcastToDepartmentGuards | src/main/java/kakao/login/controller/ChatController.java:600-611 | 400 exactly for a missing or empty department list, then 401 exactly for a caller without an employee, nothing changed |
| ControllerProperties.SendEachEntries | src/main/java/kakao/login/controller/ChatController.java:664-678 | the loop records an entry under every requested id, an error entry for an id without an employee |
| ControllerProperties.SendToMultipleUsersAnswers | src/main/java/kakao/login/controller/ChatController.java:652-681 | 401 exactly for a caller without an employee; otherwise 200 with one entry per requested id |
| RefreshTokens.Saved | src/main/java/kakao/login/service/implement/RefreshTokenServiceImplement.java:46 | after save the row is in the table, ids stay unique, and a row with a new id is appended |
| RefreshTokens.Deleted | src/main/java/kakao/login/service/implement/RefreshTokenServiceImplement.java:84 | delete keeps exactly the rows with another id, and ids stay unique |
| RefreshTokens.ByToken | src/main/java/kakao/login/repository/RefreshTokenRepository.java:16 | a found row is in the table and holds the token string; none is found only when no row holds it |
| RefreshTokens.RevokeAllMarks | src/main/java/kakao/login/service/implement/RefreshTokenServiceImplement.java:44-47 | once every token of the user has been through the revoking loop, the table is the one with all of them revoked |
| RefreshTokens.RefreshTokenRepository.Save | src/main/java/kakao/login/service/implement/RefreshTokenServiceImplement.java:46 | the table becomes Saved of the old table |
| RefreshTokens.RefreshTokenRepository.Delete | src/main/java/kakao/login/service/implement/RefreshTokenServiceImplement.java:84 | the table becomes Deleted of the old table |
| RefreshTokens.RefreshTokenService.RevokeAll | src/main/java/kakao/login/service/implement/RefreshTokenServiceImplement.java:42-48 | the loop leaves every token of the user revoked and the rest of the table as it was |
| RefreshTokens.RefreshTokenService.CreateRefreshToken | src/main/java/kakao/login/service/implement/RefreshTokenServiceImplement.java:36-62 | the table and the answer become CreateRefreshTokenSpec of the old table |
| RefreshTokens.RefreshTokenService.VerifyExpiration | src/main/java/kakao/login/service/implement/RefreshTokenServiceImplement.java:82-88 | the table and the answer become VerifyExpirationSpec of the old table |
| RefreshTokens.RefreshTokenService.RefreshAccessToken | src/main/java/kakao/login/service/implement/RefreshTokenServiceImplement.java:91-115 | the table and the answer become RefreshAccessTokenSpec of the old table |
| RefreshTokens.RefreshTokenService.Logout | src/main/java/kakao/login/service/implement/RefreshTokenServiceImplement.java:120-140 | the table becomes LogoutSpec of the old table |
| RefreshTokens.CreateRefreshTokenOutcome | src/main/java/kakao/login/service/implement/RefreshTokenServiceImplement.java:36-62 | an unknown user fails with nothing changed; otherwise the new token is unrevoked and valid for seven days, every earlier token of the user is revoked, other rows are unchanged, and the new token is the user's only live one |
| RefreshTokens.VerifyExpirationOutcome | src/main/java/kakao/login/service/implement/RefreshTokenServiceImplement.java:82-88 | accepts exactly an unexpired, unrevoked token and then changes nothing; a refused token's row is gone |
| RefreshTokens.RefreshAccessTokenOutcome | src/main/java/kakao/login/service/implement/RefreshTokenServiceImplement.java:91-115 | no result for an unknown, expired or revoked token; otherwise the access token is signed for the token's user and role, the presented token is revoked and the new refresh token appended |
| RefreshTokens.RefreshAtMostOnce | src/main/java/kakao/login/service/implement/RefreshTokenServiceImplement.java:98-100 | a refresh token works at most once: after one successful refresh the same string gives no result, whatever the clock |
| RefreshTokens.RevokedTokenFacts | src/main/java/kakao/login/service/implement/RefreshTokenServiceImplement.java:127-131 | revoking the row of a token string keeps ids and revocations and revokes the first row holding that string |
| RefreshTokens.LogoutOutcome | src/main/java/kakao/login/service/implement/RefreshTokenServiceImplement.java:120-140 | an unknown user changes nothing; otherwise the user has no live token left, the presented token's row is revoked, and no row becomes unrevoked |
| JwtFilter.ParseBearerToken | src/main/java/kakao/login/filter/JwtAuthenticationFilter.java:74-87 | an accepted token comes from a header starting with "Bearer ", is the rest after it trimmed, and holds exactly two dots |
| JwtFilter.ParseBearerTokenAccepts | src/main/java/kakao/login/filter/JwtAuthenticationFilter.java:80-86 | a header made of the prefix and a rest whose trimmed form has two dots yields that trimmed rest |
| JwtFilter.ParseBearerTokenRoundTrip | src/main/java/kakao/login/filter/JwtAuthenticationFilter.java:74-87 | "Bearer " followed by a two-dot token, padded by trimmable characters, parses back to that token |
| JwtFilter.JwsCompactParses | src/main/java/kakao/login/filter/JwtAuthenticationFilter.java:74-87 | a compact JWS, three dot-free parts joined by dots, sent as a Bearer header parses back to itself |
| JwtFilter.JwsCompactDots | src/main/java/kakao/login/filter/JwtAuthenticationFilter.java:82 | the compact form holds exactly its two separating dots |
| JwtFilter.ParseBearerTokenRefuses | src/main/java/kakao/login/filter/JwtAuthenticationFilter.java:77-85 | a missing or blank header, a "bearer " scheme and a token without exactly two dots are refused; an accepted token is non-empty with nothing trimmable at either end |
| JwtFilter.FilterChain.DoFilter | src/main/java/kakao/login/filter/JwtAuthenticationFilter.java:41 | each call counts one invocation and ends as the chain is configured to |
| JwtFilter.JwtAuthenticationFilter.Authenticate | src/main/java/kakao/login/filter/JwtAuthenticationFilter.java:51-64 | the context gets the user's authentication with its stored role as only authority when the user is stored and the role has text, and otherwise keeps what it had |
| JwtFilter.JwtAuthenticationFilter.DoFilterInternal | src/main/java/kakao/login/filter/JwtAuthenticationFilter.java:35-72 | the context, the chain invocations and the outcome become DoFilterSpec of the old ones: the corrected filter, which chains once |
| JwtFilter.DoFilterChainsOnce | src/main/java/kakao/login/filter/JwtAuthenticationFilter.java:35-72 | the request goes down the chain exactly once, and the filter ends as the chain does |
| JwtFilter.DoFilterAuthenticates | src/main/java/kakao/login/filter/JwtAuthenticationFilter.java:39-64 | an authentication is installed exactly when the header parses, validate yields a subject, the user is stored and its role has text; otherwise the context keeps what it had |
| JwtFilter.DoFilterTwiceAsWritten | src/main/java/kakao/login/filter/JwtAuthenticationFilter.java:40-43 | as written, a missing token with a chain that throws sends the request down the chain twice |
| WebSocketAuth.WebSocketConfig.BeforeHandshake | src/main/java/kakao/login/config/WebSocketConfig.java:51-86 | the handshake's answer, status, attributes and context become HandshakeSpec of the old ones |
| WebSocketAuth.WebSocketConfig.PreSend | src/main/java/kakao/login/config/WebSocketConfig.java:95-127 | the frame is returned and its user becomes PreSendUser of the old user |
| WebSocketAuth.HandshakeDecision | src/main/java/kakao/login/config/WebSocketConfig.java:51-86 | no token lets the handshake through untouched; a subject lets it through with the userId attribute and a ROLE_USER context; an empty validation refuses with 401 and a throwing one with 403, leaving attributes and context alone |
| WebSocketAuth.HandshakeNeverForbiddenWhenValidateTotal | src/main/java/kakao/login/config/WebSocketConfig.java:74-77 | a validator that never throws never produces the 403 branch |
| WebSocketAuth.ExtractTokenPrefersParameter | src/main/java/kakao/login/config/WebSocketConfig.java:131-133 | the accessToken parameter wins over any header |
| WebSocketAuth.ExtractTokenCoversFilter | src/main/java/kakao/login/config/WebSocketConfig.java:135-138 | every header the HTTP filter accepts is accepted here too, and trimming what is extracted gives the filter's token |
| WebSocketAuth.ExtractTokenSkipsDotCheck | src/main/java/kakao/login/config/WebSocketConfig.java:135-138 | the converse fails: a header the filter refuses for its dot count still yields a token here |
| WebSocketAuth.ExtractTokenFromHeadersFirstOnly | src/main/java/kakao/login/config/WebSocketConfig.java:144-159 | only the first Authorization native header is read; an empty or missing list yields none |
| WebSocketAuth.PreSendAuthenticates | src/main/java/kakao/login/config/WebSocketConfig.java:95-127 | a ROLE_USER user is set exactly when the first Authorization header carries a Bearer token that validates; otherwise the frame's user is untouched |
| Auth.AuthServiceImplement.IdCheck | src/main/java/kakao/login/service/implement/AuthServiceImplement.java:52-62 | the answer is DUPLICATE_ID exactly for a taken id and SUCCESS exactly for a free one |
| Auth.AuthServiceImplement.EmailCertification | src/main/java/kakao/login/service/implement/AuthServiceImplement.java:67-91 | the certification table and the answer become EmailCertificationSpec of the old table |
| Auth.AuthServiceImplement.CheckCertification | src/main/java/kakao/login/service/implement/AuthServiceImplement.java:95-114 | the answer is CheckCertificationSpec of the table, which is left unchanged |
| Auth.AuthServiceImplement.SignUp | src/main/java/kakao/login/service/implement/AuthServiceImplement.java:118-150 | the user table, the certification table and the answer become SignUpSpec of the old ones; the rest of the directory is unchanged |
| Auth.AuthServiceImplement.SignInUser | src/main/java/kakao/login/service/implement/AuthServiceImplement.java:154-187 | the token table and the answer become SignInSpec of the old table |
| Auth.AuthServiceImplement.RefreshToken | src/main/java/kakao/login/service/implement/AuthServiceImplement.java:239-257 | the token table and the answer become RefreshSpec of the old table |
| Auth.AuthServiceImplement.FindLogoutToken | src/main/java/kakao/login/service/implement/AuthServiceImplement.java:212-222 | the loop finds the value of the first cookie that carries the method's token, or none |
| Auth.AuthServiceImplement.Logout | src/main/java/kakao/login/service/implement/AuthServiceImplement.java:192-236 | an existing session is invalidated; the cookies added and the reply are SocialLogoutSpec of the request's cookies, the method and the provider's answer |
| Auth.AuthServiceImplement.ProviderLogout | src/main/java/kakao/login/service/implement/AuthServiceImplement.java:274-318 | the provider token cookie is expired and success answered only on a 200; otherwise 500 with nothing added; a throwing call propagates |
| Auth.CheckCertificationIff | src/main/java/kakao/login/service/implement/AuthServiceImplement.java:95-114 | checkCertification succeeds exactly when a record exists with both columns set and equal to the request's; a null column that is reached gives databaseError |
| Auth.EmailCertificationOutcome | src/main/java/kakao/login/service/implement/AuthServiceImplement.java:67-91 | a known id is refused with nothing stored; a failed mail stores nothing; a sent mail stores exactly the id's new certification and leaves the others |
| Auth.SignUpOutcome | src/main/java/kakao/login/service/implement/AuthServiceImplement.java:118-150 | a known id is refused first; a missing certification or a null column reached is databaseError; a mismatch saves nothing; success saves the user with the encoded password, app login type and ROLE_USER and deletes the certification |
| Auth.CertifyThenSignUp | src/main/java/kakao/login/service/implement/AuthServiceImplement.java:67-150 | certifying an e-mail and then signing up with the same id, e-mail and number succeeds, leaves no certification and makes the id taken |
| Auth.SignInOutcome | src/main/java/kakao/login/service/implement/AuthServiceImplement.java:154-187 | an unknown user or a wrong password is refused with nothing changed; success returns the access token signed with the stored role and a new refresh token that is the user's only live one |
| Auth.SignUpThenSignIn | src/main/java/kakao/login/service/implement/AuthServiceImplement.java:118-187 | with an encoder whose output its matcher accepts, a user who signed up can sign in with the same password |
| Auth.RefreshOutcome | src/main/java/kakao/login/service/implement/AuthServiceImplement.java:239-257 | a null or blank token is refused without touching the table; otherwise the answer is the refresh-token service's, with its new refresh token |
| Auth.LogoutTokenSelection | src/main/java/kakao/login/service/implement/AuthServiceImplement.java:212-235 | "kakao" reads the kakaoToken cookie and "naver" the naverToken cookie; any other method finds no token, so it gets 401 and the unsupported-method 400 is never returned; the session cookie is cleared on every path |
| Directory.EmployeeById | src/main/java/kakao/login/repository/EmployeeRepository.java:9 | a found employee is in the table under that id; none is found only when no employee has it |
| Directory.EmployeeByUserId | src/main/java/kakao/login/repository/EmployeeRepository.java:10 | a found employee is in the table with that user; none is found only when no employee has it |
| Directory.EmployeesOfDepartment | src/main/java/kakao/login/repository/EmployeeRepository.java:13 | exactly the employees whose department has that name |
| Directory.DepartmentByName | src/main/java/kakao/login/repository/DepartmentRepository.java:16 | a found department is in the table with that name; none only when no department has it |
| Directory.DepartmentById | src/main/java/kakao/login/repository/DepartmentRepository.java:19 | a found department is in the table with that id; none only when no department has it |
| Common.SingleMatch | src/main/java/kakao/login/repository/SectionRepository.java:18-25 | an Optional finder gives none exactly when nothing matches, the unique match when one does, and IncorrectResultSizeDataAccessException exactly when two positions match |
| Directory.SectionByName | src/main/java/kakao/login/repository/SectionRepository.java:18 | a found section is the only one with that name, whatever its department; none exactly when no section has it; IncorrectResultSizeDataAccessException exactly when two do |
| Directory.SectionById | src/main/java/kakao/login/repository/SectionRepository.java:15 | a found section is in the table with that id; none only when no section has it |
| Directory.SectionByNameInDepartment | src/main/java/kakao/login/repository/SectionRepository.java:25 | a found section is the only one with that name and that department; none exactly when no section has both; IncorrectResultSizeDataAccessException exactly when two do |
| DirectoryServices.GivenIffTrimmedNonEmpty | src/main/java/kakao/login/service/EmployeeService.java:61 | a name counts as given exactly when it is non-null and its trimmed form is non-empty |
| DirectoryServices.Uuids | src/main/java/kakao/login/service/EmployeeService.java:248-255 | a uuid is listed exactly when some employee's uuid is present, equal to it and non-empty |
| DirectoryServices.EmployeeService.RegisterEmployee | src/main/java/kakao/login/service/EmployeeService.java:47-89 | the tables and the answer become RegisterEmployeeSpec of the old tables; the users are unchanged |
| DirectoryServices.EmployeeService.UpdateEmployee | src/main/java/kakao/login/service/EmployeeService.java:163-226 | the tables and the answer become UpdateEmployeeSpec of the old tables (the null-safe department step); the users are unchanged |
| DirectoryServices.EmployeeService.SaveEdited | src/main/java/kakao/login/service/EmployeeService.java:189-223 | the answer is true exactly when the section step succeeds and the lookup's exception when it throws; the entity is saved unless it throws, edited only on success; no other table changes |
| DirectoryServices.EmployeeService.AssignDepartment | src/main/java/kakao/login/service/EmployeeService.java:173-187 | fails exactly when a department name is given and unknown; otherwise the entity carries the new department and the lookup department is returned |
| DirectoryServices.EmployeeService.AssignSection | src/main/java/kakao/login/service/EmployeeService.java:191-210 | the entity becomes SectionUpdate of the old one |
| DirectoryServices.EmployeeService.DeleteEmployee | src/main/java/kakao/login/service/EmployeeService.java:229-236 | the tables and the answer become DeleteEmployeeSpec of the old tables |
| DirectoryServices.EmployeeService.UpdateKakaoUuid | src/main/java/kakao/login/service/EmployeeService.java:91-116 | the users, the tables and the answer become UpdateKakaoUuidSpec of the old ones: the employee's own user row is the one written |
| DirectoryServices.SectionService.AddSection | src/main/java/kakao/login/service/SectionService.java:25-50 | the tables and the answer become AddSectionSpec of the old tables |
| DirectoryServices.SectionService.RemoveSection | src/main/java/kakao/login/service/SectionService.java:54-83 | the tables and the answer become RemoveSectionSpec of the old tables |
| DirectoryServices.SectionService.UpdateSection | src/main/java/kakao/login/service/SectionService.java:87-115 | the tables and the answer become UpdateSectionSpec of the old tables |
| DirectoryServices.DepartmentController.GetDepartments | src/main/java/kakao/login/controller/DepartmentController.java:24-28 | answers 200 with exactly the departments not flagged "delete", in the order the table stores them |
| DirectoryServices.DepartmentController.AddDepartment | src/main/java/kakao/login/controller/DepartmentController.java:31-36 | the tables and the answer become AddDepartmentSpec of the old tables |
| DirectoryServices.DepartmentController.UpdateDepartment | src/main/java/kakao/login/controller/DepartmentController.java:39-54 | the tables and the answer become UpdateDepartmentSpec of the old tables |
| DirectoryServices.DepartmentController.DeleteDepartment | src/main/java/kakao/login/controller/DepartmentController.java:57-67 | the tables and the answer become DeleteDepartmentSpec of the old tables |
| DirectoryServices.SectionSettingsService.UpdateUseSectionsStatus | src/main/java/kakao/login/service/SectionSettingsService.java:22-35 | the settings rows, the counter and the saved row become UpdateUseSectionsSpec of the old ones, and the table stays ordered by id |
| DirectoryServiceProperties.PutEmployeeFinds | src/main/java/kakao/login/service/EmployeeService.java:222 | after saving an employee whose id exists, findById returns the saved row and every other id finds what it found before |
| DirectoryServiceProperties.AppendedEmployeeFound | src/main/java/kakao/login/service/EmployeeService.java:88 | a row appended with an id above every key is what findById finds |
| DirectoryServiceProperties.RegisterEmployeeRefusals | src/main/java/kakao/login/service/EmployeeService.java:49-69 | an unknown user, then an unknown department, then a given section name several sections carry, then one none carries, then an existing employee of the user are refused in that order, with nothing changed |
| DirectoryServiceProperties.RegisterEmployeeSaves | src/main/java/kakao/login/service/EmployeeService.java:71-88 | one employee is appended, linked to the user with the user's kakao uuid, the named department and the named section or none for a blank name; it then is the user's employee and a second registration is refused |
| DirectoryServiceProperties.RegisterEmployeeKeepsKeys | src/main/java/kakao/login/service/EmployeeService.java:88 | registration keeps the keys: the new id is the counter, which then moves past it |
| DirectoryServiceProperties.UpdateEmployeeRefusals | src/main/java/kakao/login/service/EmployeeService.java:164-205 | false with nothing changed for an unknown employee or department name; a section not found answers false too, but the department already set is committed; it throws, changing nothing, exactly when the section name matches several sections of the department |
| DirectoryServiceProperties.UpdateEmployeeEdits | src/main/java/kakao/login/service/EmployeeService.java:173-215 | a successful update keeps the old name, phone and position where the request has null, sets the named department or keeps it, and never changes id, user or kakao uuid |
| DirectoryServiceProperties.UpdateEmployeeKeepsOthers | src/main/java/kakao/login/service/EmployeeService.java:163-226 | whatever it answers, an update writes no row but the target's and no table but the employees |
| DirectoryServiceProperties.UpdateEmployeeSection | src/main/java/kakao/login/service/EmployeeService.java:191-210 | the section is touched only when the employee has one, and then cleared for a null or blank name or set to the section of that name in the new department |
| DirectoryServiceProperties.UpdateEmployeeFalseKeepsDepartment | src/main/java/kakao/login/service/EmployeeService.java:181-204 | the refused-section answer keeps the department just assigned |
| DirectoryServiceProperties.UpdateEmployeeNoDepartmentAsWritten | src/main/java/kakao/login/service/EmployeeService.java:179-180 | as written, moving an employee without a department into one throws, since the log line reads the missing department's name |
| DirectoryServiceProperties.UpdateEmployeeAssignsDepartment | src/main/java/kakao/login/service/EmployeeService.java:175-182 | as intended, the same request never throws the null dereference: it assigns the department, or throws only for a section name several sections of the department carry |
| DirectoryServiceProperties.UpdateEmployeeKeepsKeys | src/main/java/kakao/login/service/EmployeeService.java:222 | an update keeps the keys: rows keep their ids |
| DirectoryServiceProperties.DeleteEmployeeOutcome | src/main/java/kakao/login/service/EmployeeService.java:229-236 | true exactly when the employee exists, and then every row with that id and no other is removed |
| DirectoryServiceProperties.UpdateKakaoUuidOutcome | src/main/java/kakao/login/service/EmployeeService.java:91-116 | an unknown employee is refused and one without a user dereferenced, changing nothing; otherwise the employee's user row and its own copy both get the uuid and agree afterwards, and no other row or table changes |
| DirectoryServiceProperties.UpdateKakaoUuidKeepsKeys | src/main/java/kakao/login/service/EmployeeService.java:105 | the uuid update keeps the keys |
| DirectoryServiceProperties.UpdateKakaoUuidAsWrittenMisses | src/main/java/kakao/login/service/EmployeeService.java:98-102 | as written, for a user id of six or more characters without the "kakao_" prefix the employee's own user row keeps its old uuid, and the row named by "kakao_" plus the id's tail is overwritten instead |
| DirectoryServiceProperties.UpdateKakaoUuidShortIdAsWritten | src/main/java/kakao/login/service/EmployeeService.java:98 | as written, a user id shorter than six characters fails the substring, changing nothing |
| DirectoryServiceProperties.UpdateKakaoUuidKakaoUsersAgree | src/main/java/kakao/login/service/EmployeeService.java:98-102 | for a "kakao_" user the code as written and the intended update agree |
| DirectoryServiceProperties.SearchEmployeesExact | src/main/java/kakao/login/service/EmployeeService.java:314-344 | exactly the DTOs of the employees whose name contains the keyword, and who belong to the department when a non-empty one is named, are listed; every listed name contains the keyword; an empty keyword without a department lists every named employee |
| DirectoryServiceProperties.AllKakaoUuidsExact | src/main/java/kakao/login/service/EmployeeService.java:248-255 | exactly the present, non-empty employee uuids are listed |
| DirectoryServiceProperties.KakaoUuidsByDepartmentExact | src/main/java/kakao/login/service/EmployeeService.java:260-283 | exactly the present, non-empty uuids of the users linked to the department's employees are listed |
| DirectoryServiceProperties.KakaoUuidsWithEmployeesExact | src/main/java/kakao/login/service/EmployeeService.java:286-311 | only requested, non-empty uuids are listed, and every requested one some employee holds |
| DirectoryServiceProperties.AddSectionOutcome | src/main/java/kakao/login/service/SectionService.java:25-50 | an unknown department gives null with nothing changed; otherwise one section linked to it is added under the next id and the department's flag becomes "update" |
| DirectoryServiceProperties.AddSectionKeepsKeys | src/main/java/kakao/login/service/SectionService.java:25-50 | addSection keeps the keys |
| DirectoryServiceProperties.PutDepartmentFinds | src/main/java/kakao/login/service/SectionService.java:47 | after saving a department whose id exists, findById returns it |
| DirectoryServiceProperties.PutDepartmentKeepsKeys | src/main/java/kakao/login/controller/DepartmentController.java:52 | re-saving a department under its own name, or a name no other department holds, keeps the keys |
| DirectoryServiceProperties.RemoveSectionOutcome | src/main/java/kakao/login/service/SectionService.java:54-83 | an unknown department or section name gives null with nothing changed; a name several sections carry throws with nothing changed; otherwise the one section of that name in any department is deleted and the given department's flag becomes "update" |
| DirectoryServiceProperties.RemoveSectionMatchesGlobally | src/main/java/kakao/login/service/SectionService.java:67-80 | the section removed may belong to another department than the one named, whose flag is set all the same |
| DirectoryServiceProperties.UpdateSectionOutcome | src/main/java/kakao/login/service/SectionService.java:87-115 | an unknown department or section id gives null and a null section id an IllegalArgumentException, with nothing changed; otherwise the section is renamed in place and the department row is returned unchanged, its flag untouched |
| DirectoryServiceProperties.AddDepartmentOutcome | src/main/java/kakao/login/controller/DepartmentController.java:31-36 | a created department is flagged "add" whatever the request carried, is listed and keeps the keys; a null or taken name is refused |
| DirectoryServiceProperties.UpdateDepartmentOutcome | src/main/java/kakao/login/controller/DepartmentController.java:39-54 | 404 exactly for an unknown id; otherwise the row gets the new name and flag "update", so a deleted department is listed again; keys are kept |
| DirectoryServiceProperties.DeleteDepartmentOutcome | src/main/java/kakao/login/controller/DepartmentController.java:57-67 | 404 exactly for an unknown id; otherwise the row stays, flagged "delete", and drops out of the listing |
| DirectoryServiceProperties.UseSectionsRoundTrip | src/main/java/kakao/login/service/SectionSettingsService.java:15-35 | with no row the switch reads true; after an update it reads the value written, from a row created only when there was none; other rows are untouched |

## Left out

- Transactions: a failure keeps the writes made before it. The source runs some of these operations in `@Transactional` methods that would roll back, and the model does not roll back.
- Concurrency: concurrent sends, racing date separators and broker delivery are not modelled. Broadcasts are an event log, not a delivery.
- uploadAttachment's HEAD polling loop and `Thread.sleep`: the outcome of the polling is the `fileReady` parameter. downloadAttachment, MIME detection and the real filesystem are out too; the upload directory is a set of names.
- JwtProvider internals (signing and parsing), BCrypt, JavaMail, `Math.random` and `UUID.randomUUID`: all are parameters. Row ids, uuids and Mongo ObjectIds come from identity counters; one counter serves the directory tables.
- logoutKakao and logoutNaver: the providers' REST calls. What the provider answered, or the exception it threw, is a parameter.
- Logging, `System.out` and `printStackTrace`: not modelled.
- Database constraints other than the unique and not-null department name: only those two are modelled as exceptions. Foreign keys and driver or connection exceptions are not modelled.
- Auth.IdCheckSpec: no databaseError, since the in-memory lookup cannot throw.
- Employee records embed copies of their department and section. Renaming a department or section is therefore not seen through the employees that hold it.
- EmployeeService.getAllEmployees and getEmployeesByDepartment are modelled by the employee table itself and by Directory.EmployeesOfDepartment, which the broadcast and department-room paths use. getEmployeeInfo is Directory.EmployeeByUserId plus the base64 profile image, and the image is not modelled. getEmployeesByDepartmentAndSection, getAllEmployeeIds and toDTO are plain projections with no use in the modelled paths, so they are not modelled.
- EmployeeService.getEmployeeByUserId: not modelled separately. Read as the derived lookup its undeclared finder `findEmployeeWithUser` names, it is Directory.EmployeeByUserId with a RuntimeException when there is none, and no modelled path calls it.
- Directory.EmployeeByUserId: takes the first employee of the user. Spring's `findByUser_UserId` throws when several rows match; registerEmployee refuses a second employee for a user, so the tables the model builds hold at most one.
- MessageService.Counts: a map keyed by user id. `Collectors.toMap` throws on a duplicate key, which two active members sharing one user would give; the model does not model that exception.
- ChatRoomQueries.MatchingIds: the ChatRoomRepository finders without an ORDER BY, derived or JPQL, are answered in ascending id order; the database promises no order, so `mainRooms.get(0)` (ChatRoomService.java:102-104) is some matching room, which the model takes to be the lowest id. `Containing` is a case-sensitive substring test here too; the database collation may also match "main room" in another case.
- DirectoryServices.Searched: `Containing` is matched as a case-sensitive substring test. The database collation, which may fold case, is not modelled.
- FileStorage.FileStorageService.Store: Spring's `StringUtils.cleanPath` is not part of this model; it is the `cleanPath` parameter of the service. The upload directory is a flat set of file names: a copy fails only for a stored name naming a subdirectory (which no store creates); other I/O failures of the copy are not modelled.
- Common.ParseLong: accepts only the ASCII digits. `Long.parseLong` also accepts the other Unicode decimal digits.
- The thin controllers and wrappers: AuthController, UserController, EmployeeController, SectionController and the others only forward to the services, so they are not modelled.
- ChatRoomMigration, TokenCleanupTask, the OAuth2 handlers and the Kakao message client: not modelled.
- The framework configuration: not modelled.
- DirectoryServices.DepartmentController.AddDepartment: always creates a new row under a fresh id. A request body carrying the id of an existing department makes `save` merge onto that row instead, overwriting its name and setting its flag to "add"; the model's request has no id and does not capture that merge. Update timestamps on entities are not modelled.
- Profile images and base64 payloads: not modelled. The ChatRoomListDto view is RoomListItem without them. The ChatRoomParticipant repository is folded into the rooms' membership records.
- Sorting: ties are broken in one fixed order. The source leaves the order of equal keys unspecified, for example messages with equal timestamps or rooms with equal last activity.
- ChatRooms.ChatRoom: the source keeps the membership records in a HashSet, with unspecified iteration order. The model holds them as a sequence in insertion order, and every lookup matches on the employee id.
- Strings are sequences of Unicode scalar values, not UTF-16 code units. The cuts at the "Bearer " prefix, at '/' and at the last '.' are made at ASCII delimiters, where the two views agree.
- DirectoryServices.EmployeeService.UpdateKakaoUuid and DirectoryServiceProperties.UpdateKakaoUuidShortIdAsWritten: `substring(6)` cuts at a count, which the model counts in scalar values. Java counts UTF-16 code units, so for a user id holding a character outside the Basic Multilingual Plane among its first six, Java cuts elsewhere, or does not throw where the model does. The two agree for the ids the login flows create ("kakao_…", "naver_…"); the sign-up request puts no pattern on the id.
- Date formatting is a `formatDay` parameter. The date-label regular expression is the predicate IsDateLabel.
- SignInResponseDto: modelled as the two tokens plus the lifetime. The HTTP wrapping and the other response DTOs are not modelled.
- Cookie attributes the source does not set keep their defaults. Session invalidation is a flag on HttpSession.
- Exceptions: Spring's mapping of an escaping exception to an error response is not modelled. A handler either answers a status or ends with the exception.

## Findings

| source | as written | input that shows it | evidently intended | confidence | as-written member | corrected member |
|---|---|---|---|---|---|---|
| src/main/java/kakao/login/controller/ChatController.java:377-381 | the participants list of the room returned by removeUserFromChatRoom is published, but that service returns null after deleting a room whose last active member left | the only active member of a room exits | the exit succeeds with 200 and nothing to publish for a deleted room | high (not executed) | ControllerProperties.ExitLastMemberAsWritten | ControllerProperties.ExitChatRoomRemovesCaller |
| src/main/java/kakao/login/filter/JwtAuthenticationFilter.java:40-48, 70 | both early returns call the chain inside the try block; an exception from the chain is swallowed and the chain is called again after the block | a request without an Authorization header whose downstream chain throws | the request goes down the chain exactly once and the chain's exception propagates | high (not executed) | JwtFilter.DoFilterTwiceAsWritten | JwtFilter.DoFilterChainsOnce |
| src/main/java/kakao/login/service/EmployeeService.java:179-180 | the department-change log line reads the old department's name, which is null for an employee without a department | updating an employee that has no department with the name of an existing department; the application's own writers never leave an employee without one (registerEmployee and updateEmployee assign only a department they found, and departments are only soft-deleted), so such a row must be written outside the application, which the nullable join column allows | the department is assigned | medium (not executed) | DirectoryServiceProperties.UpdateEmployeeNoDepartmentAsWritten | DirectoryServiceProperties.UpdateEmployeeAssignsDepartment |
| src/main/java/kakao/login/service/EmployeeService.java:98-102 | the uuid is written to the user whose id is "kakao_" followed by the employee's user id minus its first six characters, which is the employee's own user only for a "kakao_" id | an employee linked to a user "naver_…" (the Naver login's ids) | the employee's own user row gets the uuid | high (not executed) | DirectoryServiceProperties.UpdateKakaoUuidAsWrittenMisses | DirectoryServiceProperties.UpdateKakaoUuidOutcome |
