# Nexus core, modelled in Dafny

Nexus is a Next.js social network for developers. Users post, like and
comment, keep a friends list, exchange direct messages, run projects with
members and tasks, keep a calendar, and read notifications. This project
models the rules at the heart of those features:

- the API routes: the message directory and inbox
  (`app/api/messages/route.ts`) and the calendar events
  (`app/api/calendar/routes.tsx`);
- the data helpers of `lib/db-utils.ts`: likes and their counters,
  comments, friends, tasks, and the builder of the user-settings `UPDATE`
  statement;
- the client components that keep state:
  - the header's notification counter and search box;
  - the friends list with its filter, "last seen" text and fallback list;
  - the comment thread;
  - the project member panel;
  - the post composer;
  - the project form;
  - the help page's FAQ search.

Database tables are sequences of rows (or maps keyed by id). SQL statements
become functions over those tables. A React component's state becomes a
`class` whose fields are the `useState` variables. Each event handler
becomes a `method` that states the new state in full. What a request
answered (a payload, a non-ok status, a thrown error) is a parameter of the
handler. Values coming from JSON or query strings are `Option`s. An id from
a JSON body is present only when it is `Some` of a non-zero number, as
JavaScript's truthiness for numbers has it. A query-string parameter is
present whenever it is `Some`: the text "0" is truthy, and `None` stands for
a missing or empty parameter.

Two modules serve the others:

- `Common` holds `Option`, truthiness, whitespace trimming as
  `String.prototype.trim` does it, and decimal rendering of numbers.
- `Sequences` and `Sorting` hold a filter and an insertion sort by a
  two-part key. The filter is proved to keep, in order, each element that
  passes the test as often as it occurs. The sort is proved to give a sorted
  permutation.

The code does not normalise the pair of a conversation and has no
uniqueness constraint. It stores the pair as given and finds it in either
order. Served one request at a time, it still never stores a pair twice.

## Model

| member | source | states |
|---|---|---|
| Common.TrimText | components/comments.tsx:66 | the text with leading and trailing white space removed, and whether it was blank, which holds exactly when the trimmed text is empty |
| Common.TrimIdempotent | components/header.tsx:72 | trimming twice is trimming once |
| Common.NatToStringRoundTrip | components/FriendsList.tsx:111-116 | the decimal text of a count reads back as the same count |
| Messages.FindPair | app/api/messages/route.ts:60-71 | finds the first row that stores the pair in either order; `None` only when no row stores it |
| Messages.FindPairSymmetric | app/api/messages/route.ts:62-65 | the lookup gives the same row whichever way round the pair is given |
| Messages.GetOrCreate | app/api/messages/route.ts:51-85 | a missing or zero id gives "missing fields" and leaves the table as it was; otherwise the returned id belongs to a row storing the pair; the table is either unchanged or grows by exactly one row `(userId, otherUserId)` with a fresh id, and that happens only when no earlier row stored the pair; ids stay below the counter and no pair is stored twice |
| Messages.GetOrCreateFinds | app/api/messages/route.ts:70-71 | when a row already stores the pair, the first such row's id comes back and nothing is inserted |
| Messages.GetOrCreateStable | app/api/messages/route.ts:51-85 | asking again for the same pair, in either order, returns the same id and adds no row, so the two calls add at most one row |
| Messages.ConversationDirectory.Post | app/api/messages/route.ts:51-85 | the directory keeps every id below its counter, and its new rows and counter together with the response are exactly `GetOrCreate` applied to the old table |
| Messages.Latest | app/api/messages/route.ts:32-37 | the latest message of a conversation: none exactly when it has no message, otherwise a message of that conversation whose `created_at` is the greatest |
| Messages.ListedIn | app/api/messages/route.ts:26-38 | the conversations kept are exactly those in which the requester takes part and whose other participant has a user row |
| Messages.Joined | app/api/messages/route.ts:25-38 | an entry is joined if and only if it is the entry of a kept conversation |
| Messages.JoinedOnePerConversation | app/api/messages/route.ts:25-38 | the join yields exactly one entry per kept conversation, in the same position, so none is dropped or repeated |
| Messages.ListConversations | app/api/messages/route.ts:4-49 | with no `userId`, "User ID required"; otherwise a permutation of the joined rows, ordered by `COALESCE(last message time, updated_at)` with the most recent first |
| Messages.InboxExactly | app/api/messages/route.ts:25-38 | an entry is in the inbox if and only if it is the entry of a conversation of the requester whose other participant exists |
| Messages.EntryForMeaning | app/api/messages/route.ts:17-37 | an entry names the participant who is not the requester and carries the latest message, if any; it is ordered by that message's time, or by `updated_at` when there is no message |
| DbUtils.AddLike | lib/db-utils.ts:50 | keeps the length, and adds one to the likes counter of the posts with that id only |
| DbUtils.RemoveLike | lib/db-utils.ts:61 | keeps the length, and takes one off the positive likes counters of the posts with that id only |
| DbUtils.AddComment | lib/db-utils.ts:388 | keeps the length, and adds one to the comments counter of the posts with that id only |
| DbUtils.DeleteLike | lib/db-utils.ts:60 | a subsequence of the like rows: every copy of this user's like of this post goes, and every other row stays as often as it occurred, in order |
| DbUtils.CountersStayValid | lib/db-utils.ts:47-67 | no counter ever goes negative under a like, an unlike or a new comment |
| DbUtils.UnlikeUndoesLike | lib/db-utils.ts:47-67 | an unlike right after a like restores every counter |
| DbUtils.LikeUndoesUnlike | lib/db-utils.ts:58-67 | a like right after an unlike restores the counters if and only if the post's counter was positive |
| DbUtils.SocialStore.LikePost | lib/db-utils.ts:47-56 | succeeds exactly when both statements do; the like row goes in before the counter moves, and a failure after the insert leaves the row but not the count; comments are untouched |
| DbUtils.SocialStore.UnlikePost | lib/db-utils.ts:58-67 | succeeds exactly when both statements do; the user's like rows go first, then the guarded decrement; comments are untouched |
| DbUtils.SocialStore.CreateComment | lib/db-utils.ts:382-390 | appends one comment row with a fresh id, then adds one to the post's comment count; likes are untouched |
| DbUtils.FriendIds | lib/db-utils.ts:78-90 | an id is selected exactly when some accepted friendship links it to the user, in either direction |
| DbUtils.GetFriends | lib/db-utils.ts:69-95 | a row is listed exactly when it is the user row of a friend that exists, without duplicates |
| DbUtils.FriendsSymmetric | lib/db-utils.ts:78-90 | `a` is listed among `b`'s friends if and only if `b` is listed among `a`'s |
| DbUtils.StatusRank | lib/db-utils.ts:139-142 | rank 1 is todo, 2 is in progress, 3 is review, 4 is anything else |
| DbUtils.ProjectTaskRows | lib/db-utils.ts:135-137 | the rows are exactly the project's tasks joined with their assignee |
| DbUtils.TaskRowsOnePerTask | lib/db-utils.ts:135-137 | the join gives one row per task of the project, in table order, so none is dropped or repeated |
| DbUtils.GetTasks | lib/db-utils.ts:122-148 | a permutation of the project's task rows, ordered by status rank and then by due date |
| DbUtils.GetTasksExactly | lib/db-utils.ts:137 | a row is listed if and only if it belongs to a task of that project |
| UserSettingsSql.UpdateUserSettings | lib/db-utils.ts:334-360 | the loop builds the statement text of `WrittenQuery`; the values bound are the whitelisted values in entry order, followed by the user id |
| UserSettingsSql.IncludesMeans | lib/db-utils.ts:348 | `includes(key)` on a list holds if and only if the key is in it |
| UserSettingsSql.KeptMember | lib/db-utils.ts:347-353 | an entry is kept (and its value bound) if and only if it is one of the entries and its key is whitelisted |
| UserSettingsSql.BuiltShape | lib/db-utils.ts:347-353 | the loop writes the whitelisted assignments in order, joined by `, `, with a stray leading `, ` whenever the first entry is not whitelisted |
| UserSettingsSql.AsWrittenQueryCorrectIff | lib/db-utils.ts:349 | the statement as written is well formed if and only if the first entry's key is whitelisted |
| UserSettingsSql.WrittenStrayComma | lib/db-utils.ts:349 | otherwise the text after `SET` starts with a stray `, ` |
| UserSettingsSql.StrayCommaExample | lib/db-utils.ts:344-355 | `{language: "pt"}` gives `UPDATE user_settings SET , updated_at = NOW() WHERE user_id = ?` |
| UserSettingsSql.UpdateUserSettingsFixed | lib/db-utils.ts:344-356 | the corrected loop builds the intended statement, `SET a = ?, b = ?, updated_at = NOW()`, and binds the same values |
| UserSettingsSql.PlaceholdersMatchValues | lib/db-utils.ts:350-356 | the text as written holds exactly one `?` per value bound |
| UserSettingsSql.IntendedPlaceholdersMatchValues | lib/db-utils.ts:350-356 | so does the text of the corrected statement |
| Header.Unread | components/header.tsx:60-62 | the unread list holds exactly the notifications that are not read |
| Header.UnreadIsFilter | components/header.tsx:60-62 | the unread list is `filter((n) => !n.read)`: the unread notifications in order, each as often as it occurs, so its length is the count shown |
| Header.MarkRead | components/header.tsx:100-102 | keeps the length and order; an entry becomes read exactly when it was read or carries the id, and nothing else in it changes |
| Header.MarkReadIdempotent | components/header.tsx:100-102 | marking the same id twice is the same as marking it once |
| Header.MarkReadUnread | components/header.tsx:100-103 | marking an id read lowers the number of unread entries by exactly the number of unread entries carrying it |
| Header.DecrementClamped | components/header.tsx:103 | `Math.max(0, c - 1)`: never negative, one less than a positive count |
| Header.HeaderState.constructor | components/header.tsx:43-45 | no notifications, a zero counter, and empty hidden search |
| Header.HeaderState.FetchNotifications | components/header.tsx:56-67 | an array payload replaces the list and the counter then agrees with it; anything else changes nothing |
| Header.HeaderState.MarkNotificationAsRead | components/header.tsx:97-107 | as written: after the `PUT` the entries with that id are marked read and the counter goes down by one, clamped at zero; if the request throws, nothing changes |
| Header.HeaderState.MarkNotificationAsReadFixed | components/header.tsx:97-107 | corrected: the counter drops by the number of unread entries carrying the id, and keeps agreeing with the list |
| Header.HeaderState.HandleSearch | components/header.tsx:69-86 | the query is stored; a request is made if and only if the trimmed query is not empty; a blank query clears and hides the results; a payload is shown (`[]` for a falsy one); a thrown request leaves the results as they were |
| Header.DecrementDrifts | components/header.tsx:103 | as written, clicking an entry that is already read while another is unread leaves the counter exactly one below the true number of unread entries |
| Header.DecrementAgreesIff | components/header.tsx:100-103 | the decrement is right if and only if exactly one unread entry carries the id, or there is nothing unread and none carries it |
| Header.AlreadyReadClickExample | components/header.tsx:166-168 | one unread and one read notification: clicking the read one shows a counter of 0 while one entry is still unread |
| FriendsList.FilteredFriends | components/FriendsList.tsx:89-93 | a subsequence holding exactly the friends the filter shows; "all" keeps the whole list |
| FriendsList.OnlineOfflinePartition | components/FriendsList.tsx:96-97 | the online and offline sections split the list: together they hold every friend exactly once, and each holds only its kind |
| FriendsList.FilterShowsSection | components/FriendsList.tsx:89-97 | the "online" filter gives the online section, and the "offline" filter the offline one |
| FriendsList.Bucket | components/FriendsList.tsx:107-116 | the five intervals (under a minute, an hour, a day, a week, or later), each with its count between 1 and the next unit |
| FriendsList.FormatLastSeen | components/FriendsList.tsx:100-120 | "Nunca conversou" for an absent date; the locale date for an unparsable one; otherwise "Agora mesmo", "N min atrás", "N h atrás", "N dias atrás" or the locale date, according to the elapsed interval |
| FriendsList.FallbackShape | components/FriendsList.tsx:43-82 | the fallback list is friends 2, 3 and 4; two of them are online and friend 4 is offline |
| FriendsList.FriendsPanel.FetchFriends | components/FriendsList.tsx:31-86 | an array payload becomes the list and clears the error; a payload that is not an array gives an empty list; a failure sets the error and installs the fallback list; loading ends, and the error screen (error and no friends) is never reached |
| Comments.WithoutComment | components/comments.tsx:115-116 | a subsequence without the deleted id, keeping every other comment; the list is unchanged when no comment has that id |
| Comments.WithoutCommentIdempotent | components/comments.tsx:115-116 | deleting the same id twice is deleting it once |
| Comments.DeleteMenuOnlyForAuthor | components/comments.tsx:219 | the delete menu is shown if and only if the signed-in user wrote the comment, and never when nobody is signed in |
| Comments.CommentThread.constructor | components/comments.tsx:20-29 | an empty thread, an empty input, not loading and no error |
| Comments.CommentThread.HandleAddComment | components/comments.tsx:65-99 | nothing is sent if and only if the input is blank or nobody is signed in, and then only the error is set; otherwise the trimmed text is sent for the user, and the outcome is applied: a created comment goes in front with the input cleared; a rejection or throw keeps the list and the input and sets the server's or the thrown message |
| Comments.CommentThread.Submit | components/comments.tsx:81-98 | what the `POST` outcome leaves, as above; loading ends |
| Comments.CommentThread.HandleDeleteComment | components/comments.tsx:101-123 | a request is made if and only if a user is signed in and confirmed; success removes exactly the comments with that id; failure keeps the list and sets the error |
| ProjectDetails.LoadedMembers | components/project-details.tsx:56-59 | the payload's member list, or `[]` for a failure or a missing list |
| ProjectDetails.WithoutMember | components/project-details.tsx:106 | a subsequence holding exactly the members other than the removed id |
| ProjectDetails.RemovalKeepsViewer | components/project-details.tsx:233 | since the remove button is never offered on one's own row, a removal through it keeps the viewer in the list |
| ProjectDetails.MembersStatAfterRemoval | components/project-details.tsx:152 | the members stat drops by exactly the number of rows with the removed id |
| ProjectDetails.MemberPanel.constructor | components/project-details.tsx:38-42 | no members, not loading, the form hidden, an empty e-mail and the role "Membro" |
| ProjectDetails.MemberPanel.FetchMembers | components/project-details.tsx:50-61 | with no project id nothing changes; otherwise the members become the loaded list |
| ProjectDetails.MemberPanel.HandleAddMember | components/project-details.tsx:63-91 | nothing is sent if and only if there is no project id or the e-mail is blank; otherwise the e-mail as typed and the role are sent; success reloads the members, clears the e-mail and hides the form; failure keeps all three; loading ends |
| ProjectDetails.MemberPanel.HandleRemoveMember | components/project-details.tsx:93-110 | a request is made if and only if there is a project id and a confirmation; success removes exactly that member; otherwise the list stays |
| Calendar.EndOrStart | app/api/calendar/routes.tsx:51 | `end \|\| start`: the end when it is truthy, else the start |
| Calendar.NewRow | app/api/calendar/routes.tsx:47-52 | the inserted row: title, start and user as given; `description \|\| ""`; `end \|\| start`; `color \|\| "#3b82f6"`; created now |
| Calendar.UpdateWhereId | app/api/calendar/routes.tsx:91-96 | for a body whose parameters all bind: keeps the length; rows with that id take the title and start as given (`null` as NULL), `description \|\| ""`, `end \|\| start` and `color \|\| "#3b82f6"`, and keep their id, owner and creation time; every other row stays |
| Calendar.UpdateIdempotent | app/api/calendar/routes.tsx:91-96 | the same update twice is the same update once |
| Calendar.DeleteWhereId | app/api/calendar/routes.tsx:115-118 | a subsequence holding exactly the rows with a different id |
| Calendar.FindEvent | app/api/calendar/routes.tsx:60-75 | the row with that id, or `None` exactly when no row has it |
| Calendar.GetEvents | app/api/calendar/routes.tsx:4-36 | with no user id, a 400; otherwise a permutation of exactly the user's events, ordered by start date with `NULL` first |
| Calendar.GetEventsExactly | app/api/calendar/routes.tsx:25 | an event is listed if and only if it belongs to the user |
| Calendar.DeleteUndoesCreate | app/api/calendar/routes.tsx:38-125 | deleting the id of a freshly created row restores the table |
| Calendar.CalendarStore.Create | app/api/calendar/routes.tsx:38-81 | missing title, start or user: a 400 and nothing changes; otherwise one row with a fresh id is appended, and the route returns it when the driver reports the insert id, or `null` (a lookup of id 0) when it does not |
| Calendar.CalendarStore.Update | app/api/calendar/routes.tsx:83-104 | with no id, a 400; a body without a `title` or `start` member cannot be bound, so the 500 "Failed to update event" with nothing changed; otherwise every row with that id is overwritten |
| Calendar.CalendarStore.Delete | app/api/calendar/routes.tsx:106-125 | with no id, a 400; otherwise the rows with that id are gone and the rest stay; ids stay distinct and below the counter |
| CreatePost.Rejection | components/create-post.tsx:41-49 | "Adicione texto ou uma imagem" if and only if the text is blank and there is no image; otherwise "Você precisa estar logado" if and only if nobody is signed in; otherwise no rejection |
| CreatePost.Requests | components/create-post.tsx:55-84 | one or two requests; the upload comes first if and only if there is an image; the post is sent if and only if there is no image or the upload succeeded, and it carries the trimmed text and the uploaded URL |
| CreatePost.Composer.HandleImageSelect | components/create-post.tsx:20-33 | an image file is kept with its preview and clears the error; any other file sets the error and keeps the previous image |
| CreatePost.Composer.RemoveImage | components/create-post.tsx:35-38 | clears the image and its preview, and nothing else |
| CreatePost.Composer.HandlePost | components/create-post.tsx:40-99 | a rejected post sends nothing and only sets the error; otherwise the requests are `Requests` of the trimmed text, a posted post resets the form and notifies the parent, and a failed upload or post keeps the form and sets the matching error; loading ends |
| CreatePost.Composer.Send | components/create-post.tsx:51-98 | the part after validation, with the same outcome as above |
| CreateProject.ProjectForm.constructor | components/create-project.tsx:20-25 | the four fields, all empty |
| CreateProject.ProjectForm.HandleChange | components/create-project.tsx:27-30 | the named field takes the value; every other field keeps its value |
| CreateProject.ProjectForm.HandleSubmit | components/create-project.tsx:32-61 | nothing is sent if and only if nobody is signed in or the name is blank, and the "name required" error is then set; otherwise the whole form is sent with the user id; the project is created if and only if the request succeeds, and failure sets "Erro ao criar projeto" |
| HelpFaq.ToLowerIdempotent | app/ajuda/page.tsx:39-40 | lower-casing twice is lower-casing once |
| HelpFaq.ContainsMeans | app/ajuda/page.tsx:39-40 | `includes` holds if and only if the search text occurs at some position |
| HelpFaq.FilteredFaqs | app/ajuda/page.tsx:37-41 | a subsequence holding exactly the FAQs whose question or answer contains the lower-cased search; an empty search keeps them all |
| HelpFaq.SearchIgnoresCase | app/ajuda/page.tsx:37-41 | searches that lower-case alike give the same FAQs |
| HelpFaq.KanbanFindsFaq3 | app/ajuda/page.tsx:25-31 | searching "KANBAN" finds the FAQ about project tasks |

## Left out

- Network and database I/O, `console.error`, `alert` and `confirm` dialogs. A request's outcome and the user's confirmation are parameters.
- Concurrency: requests and React state updates run one after another, with no interleaving.
- Clock and locale: the current time, `Date` parsing and `toLocaleDateString` are parameters.
- `FileReader`: the data URL of a selected image is a parameter.
- `useEffect` triggers and rendering, except the rules that decide what is shown: the owner-only delete menu, the self-removal guard, the members stat, the online/offline sections and the error screen. A filter or search chosen in the UI is a parameter.
- Sorting ties: a SQL `ORDER BY` leaves the order of equal keys open. The model fixes one order, and proves nothing about it.
- Timestamps are integers; date strings in the calendar are compared through a given `instant` function.
- HelpFaq.ToLower: lower-cases ASCII and Latin-1 letters only. JavaScript's `toLowerCase` covers all of Unicode.
- The 500 responses from the routes' `catch` blocks: a failing database is not modelled, so they return a fixed error and change nothing. The one 500 the inputs themselves cause, a `PUT` body without `title` or `start`, is modelled.
- GET of `/api/calendar`: a driver result that is not an array gives `[]`. The model's table always yields an array.
- Ids from the query string (the calendar's `DELETE`, the inbox's `GET`) are taken as already-parsed numbers. The text is not parsed.
- FriendsList.FormatLastSeen: its `catch` ("Data inválida") cannot be reached, since `new Date` never throws. It is not modelled.
- The comment list's `fetchComments` and the other routes and helpers of the repository are not part of this model.
- DbUtils.SocialStore.CreateComment: a statement that throws is returned as the outcome `CommentThrown` rather than propagated. The tables are left as the statements before it left them.

## Findings

| source | as written | input that shows it | evidently intended | confidence | as-written member | corrected member |
|---|---|---|---|---|---|---|
| lib/db-utils.ts:349 | the separator is written when `index > 0`, which counts every entry, whitelisted or not, and `, updated_at` is always appended | `{language: "pt"}` gives `UPDATE user_settings SET , updated_at = NOW() WHERE user_id = ?` | a separator only between written assignments | not executed | UserSettingsSql.StrayCommaExample | UserSettingsSql.UpdateUserSettingsFixed |
| components/header.tsx:103 | the counter goes down by one after any click, even on a notification that was already read | notifications `[1 unread, 2 read]`, click 2: the counter shows 0 and one entry is still unread | the counter keeps equalling the number of unread notifications | not executed | Header.AlreadyReadClickExample | Header.HeaderState.MarkNotificationAsReadFixed |
