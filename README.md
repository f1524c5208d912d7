# Library management system: a verified model of its core

The system is a small library application. An Express and MySQL back end keeps a table
of books, each with a shelf `quantity`, and a table of loans. A reader borrows a book
(at most five open loans, one copy off the shelf, due in seven days) and returns it
(the copy goes back). From the loan table the back end derives, at read time, two kinds
of reminder: "due soon" (zero to two days left) and "overdue" (due before today). It
serves them, together with stored rows, as the user's *messages* and the user's
*notifications*. A reminder can be marked read or deleted, which the back end records
in a table of dismissed reminders.

The browser pages add client-side logic:

- book search and genre filters, and grouping the catalogue by genre;
- a local copy of the messages, updated optimistically when one is read or deleted;
- badges: the loan status, and the unread counter;
- relative times ("5 minutes ago") and icons;
- the registration, add-user, add-book and profile forms, each with its chain of
  checks.

This project restates that logic in Dafny and proves what it promises. Each module follows one
part of the program:

| module | models |
|---|---|
| `Loans` | `borrowBook`, `returnBook`, `getUserLoans`: the `Library` class holds the book map and the loan table; each transaction is one method proved against a state function |
| `Reminders` | the due-soon and overdue queries shared by both controllers (dates as day numbers, `DATEDIFF` as subtraction) |
| `Messages` | `getUserMessages`, `deleteMessage`, `markMessageAsRead`, `createMessage` over the messages and dismissed-reminders tables (class `MessageStore`) |
| `Notifications` | `getUserNotifications`, `markNotificationAsRead`, `createNotification` (class `NotificationStore`) |
| `AdminLoans`, `FormEncoding` | `calculateLoanStatus` and the query string `fetchAllLoans` builds, with form-urlencoding |
| `MessageList`, `NotificationList`, `RelativeTime` | sorting, icons, buttons and relative times of the two list components |
| `Validation` | the e-mail, password and confirmation rules and the three registration chains |
| `UserPage`, `Dashboard`, `AdminPage`, `Catalog` | the reader's two dashboards and the admin page |
| `Base`, `Strings`, `Sorting` | shared types and models of the JavaScript built-ins used: `trim`, `toLowerCase`, `includes`, `split`, `join`, `String(n)`, `parseInt`, `.length`, `filter`, `sort` |

Clocks, the network, the DOM and `localStorage` are outside the model:

- `now` (milliseconds) and `today` (a day number) are parameters.
- Responses are status codes or outcome values.
- Storage is a map that the methods rewrite.

## Model

| member | source | states |
|---|---|---|
| Loans.Library.BorrowBook | Backend/controllers/loanController.js:4-40 | The transaction's new state and outcome are `Borrow` of the old state, and the table invariant (no negative quantity, increasing loan ids) is kept. |
| Loans.Library.ReturnBook | Backend/controllers/loanController.js:43-65 | The new state and outcome are `Return` of the old state, and the table invariant is kept. |
| Loans.Library.Rollback | Backend/controllers/loanController.js:34-36 | A rollback restores exactly the state saved when the transaction began. |
| Loans.BorrowDecision | Backend/controllers/loanController.js:13-24 | The limit check comes first: 5 or more open loans give the limit error even for a book that is out of stock. An unknown book fails. Quantity below 1 gives "not available". Otherwise the borrow succeeds. A failure changes nothing. |
| Loans.BorrowEffect | Backend/controllers/loanController.js:27-33 | A successful borrow takes exactly one copy of the requested book and never drives it below 0. Other books are untouched. Exactly one open loan for the user and book is appended, due `now + 7*24*60*60*1000`. Only that user's open-loan count grows, by one. |
| Loans.BorrowKeepsValid | Backend/controllers/loanController.js:13-33 | Every borrow, successful or not, keeps the table invariant. |
| Loans.ReturnKeepsValid | Backend/controllers/loanController.js:51-61 | Every return keeps the table invariant. |
| Loans.RunKeepsValid | Backend/controllers/loanController.js:4-65 | Any sequence of borrows and returns keeps every quantity at 0 or above. |
| Loans.BorrowThenReturn | Backend/controllers/loanController.js:51-55 | Returning the loan a borrow just made restores every quantity and every user's open-loan count, and leaves that loan marked returned. |
| Loans.ReturnFreshLoan | Backend/controllers/loanController.js:51-55 | Returning the newest loan marks it returned and adds one copy of its book. |
| Loans.UserLoansExactly | Backend/controllers/loanController.js:68-77 | `getUserLoans` lists exactly the user's unreturned loans whose book exists, joined with that book's title and author: one row per such loan, in table order (the i-th row is the i-th loan the filter keeps), so no row is repeated. |
| Loans.ActiveCount | Backend/controllers/loanController.js:13 | The count is the number of the user's unreturned loans (`Count` with `IsActive`), and so at most the table size. |
| Loans.FindLoan | Backend/controllers/loanController.js:54-55 | The row found has the requested id, and nothing is found exactly when no row has that id. |
| Loans.MarkReturned | Backend/controllers/loanController.js:51 | Exactly the rows with the id become returned; every other row is unchanged. |
| Loans.IncrementQuantity | Backend/controllers/loanController.js:55 | Exactly the named book gains one copy; an unknown id changes nothing. |
| Loans.ActiveForBookMarked | Backend/controllers/loanController.js:51 | Marking a loan returned lowers the book's count of loans still out by exactly the loans it closes. |
| Loans.BorrowConservesStock | Backend/controllers/loanController.js:27-30 | A borrow conserves each book's stock, counting shelf copies plus copies out on loan. |
| Loans.ReturnTwiceInflatesStock | Backend/controllers/loanController.js:51-55 | As written, returning a loan that is already returned still succeeds and adds a copy that never left: the stock grows by one. |
| Loans.DoubleReturnExample | Backend/controllers/loanController.js:51-55 | Concretely: one copy, borrowed, returned, returned again, gives a quantity of 2. The guarded return refuses the second return and keeps 1. |
| Loans.Library.ReturnBookOnce | Backend/controllers/loanController.js:43-65 | The corrected return: its outcome and new state are `ReturnOnce` of the old state, and it keeps the table invariant. |
| Loans.ReturnOnceConservesStock | Backend/controllers/loanController.js:51-55 | With the already-returned guard, every return conserves every book's stock. |
| Loans.ReturnOnceRefusesSecond | Backend/controllers/loanController.js:51-55 | With the guard, a second return of the same loan never succeeds. |
| Reminders.BeforeMidnightIffEarlierDay | Backend/controllers/notificationController.js:38 | `due_date < CURDATE()` holds exactly when the due day is before today. |
| Reminders.OverdueIffNegative | Backend/controllers/notificationController.js:33-41 | A loan is overdue exactly when it is the user's, unreturned, and has negative days remaining. No loan is both due soon and overdue, and an overdue loan is at least one day late. |
| Reminders.DueSoonLoans | Backend/controllers/notificationController.js:22-30 | The due-soon query yields exactly the user's unreturned loans with 0 to 2 days left, each as often as the filter keeps it (once per table row), ascending by due date. |
| Reminders.OverdueLoans | Backend/controllers/notificationController.js:33-41 | The overdue query yields exactly the user's unreturned loans due before today, each as often as the filter keeps it (once per table row), ascending by due date. |
| Reminders.RemindersDisjoint | Backend/controllers/messageController.js:22-41 | Both queries yield only the user's unreturned loans, and no loan is in both. |
| Reminders.RemindersOncePerLoan | Backend/controllers/notificationController.js:22-41 | With unique loan ids, neither query names a loan id twice, so each loan gets at most one reminder of each kind. |
| Reminders.RowsSpec | Backend/controllers/messageController.js:22-41 | Each due-soon row carries 0 to 2 days remaining. Each overdue row carries the absolute day difference, at least 1. Each row comes from a qualifying loan and carries its book's title. |
| Reminders.RowsOf | Backend/controllers/notificationController.js:23-34 | One row per loan, with its id, its book's title and its day difference (made absolute for the overdue query). |
| Reminders.DueSoonTitleDistinct | Backend/controllers/messageController.js:77 | The due-soon title says "due today" exactly when 0 days remain, and different day counts give different titles. |
| Reminders.OverdueTextDistinct | Backend/controllers/messageController.js:95 | Different overdue day counts give different overdue texts. |
| Messages.MessageStore.GetUserMessages | Backend/controllers/messageController.js:53-118 | The loops build the dismissed lookup, then push the due-soon reminders, the overdue reminders and the stored messages. The list is `UserMessages` of the tables, and `unreadCount` is its number of unread entries. |
| Messages.UserMessagesSpec | Backend/controllers/messageController.js:22-115 | The list is due-soon reminders, then overdue reminders, then stored messages. Each reminder is for one of the user's loans, with id `due_soon_<loan>` or `overdue_<loan>`, and is read exactly when the user dismissed that id. Each other entry is one of the user's undeleted rows, read exactly when its column is 1. Conversely, every due-soon and every overdue loan of the user has its reminder in the list. |
| Messages.DueSoonComplete | Backend/controllers/messageController.js:70-85 | Every due-soon loan of the user has its reminder, with its id and read flag, in the due-soon section. |
| Messages.OverdueComplete | Backend/controllers/messageController.js:87-102 | Every overdue loan of the user has its reminder, with its id and read flag, in the overdue section. |
| Messages.RemindersEarliestDueFirst | Backend/controllers/messageController.js:22-41 | With unique loan ids, two reminders of the same section list their loans earliest due first (`ORDER BY l.due_date ASC`). |
| Messages.StoredFor | Backend/controllers/messageController.js:44-50 | The 50 newest of the user's undeleted rows, newest first: exactly min(50, qualifying) rows, none repeated beyond the table, and every qualifying row left out is no newer than every row kept. All of them when the user has at most 50. |
| Messages.KeysOf | Backend/controllers/messageController.js:60-64 | The lookup holds exactly the keys `<type>_<loan>` of the user's dismissed rows. |
| Messages.CollectKeys | Backend/controllers/messageController.js:60-64 | The loop that fills the lookup yields exactly those keys. |
| Messages.PushDueSoon | Backend/controllers/messageController.js:70-84 | The loop appends one due-soon reminder per row, in row order. |
| Messages.PushOverdue | Backend/controllers/messageController.js:87-101 | The loop appends one overdue reminder per row, in row order. |
| Messages.PushStored | Backend/controllers/messageController.js:104-115 | The loop appends one message per stored row, in row order. |
| Messages.DueSoonMessages | Backend/controllers/messageController.js:70-84 | One reminder per row, its id built from the loan id and read exactly when that id is dismissed. |
| Messages.OverdueMessages | Backend/controllers/messageController.js:87-101 | One overdue reminder per row, in order. |
| Messages.StoredMessages | Backend/controllers/messageController.js:104-115 | One message per stored row, in order, read exactly when the row's column is 1. |
| Messages.DueSoonIdRoundTrip | Backend/controllers/messageController.js:191-202 | Splitting `due_soon_<n>` on `_` recovers the type `due_soon` and the loan `n` that built the id. |
| Messages.OverdueIdSplit | Backend/controllers/messageController.js:142-144 | `overdue_<n>` splits into only two pieces, so `deleteMessage` stores type `overdue_<n>` with no loan id. |
| Messages.OverdueNeverRead | Backend/controllers/messageController.js:191-199 | As written, marking `overdue_<n>` read always answers 400 and changes nothing. Deleting it never dismisses it. |
| Messages.ParseReminderId | Backend/controllers/messageController.js:191-202 | Reads a reminder id as type and loan by its prefix. It succeeds exactly on reminder ids, and the two parts joined by `_` give back the id. |
| Messages.ParseReminderIdRoundTrip | Backend/controllers/messageController.js:71 | Both `due_soon_<n>` and `overdue_<n>` read back as their type and `n`. |
| Messages.MarkReminderReadIntended | Backend/controllers/messageController.js:191-225 | With the prefix parse, marking either kind of reminder read answers 200 and makes its id one of the user's dismissed keys. |
| Messages.MessageStore.MarkMessageAsReadIntended | Backend/controllers/messageController.js:176-266 | The corrected handler: its status and new tables are `MarkReadIntended` of the old tables. |
| Messages.MarkDueSoonRead | Backend/controllers/messageController.js:200-225 | Marking a due-soon reminder read answers 200 and dismisses its id, so it shows as read afterwards. |
| Messages.MarkStoredRead | Backend/controllers/messageController.js:230-246 | Marking one of the user's rows read answers 200 and the row shows as read in the user's list. |
| Messages.MarkReadIdempotent | Backend/controllers/messageController.js:206-246 | Marking a message read twice gives the same tables and status as marking it once. |
| Messages.MarkReadRefused | Backend/controllers/messageController.js:176-240 | An empty id answers 400. An id that is not a reminder id answers 404 exactly when no row of the caller has it. A 404 writes nothing. |
| Messages.MessageStore.MarkMessageAsRead | Backend/controllers/messageController.js:176-266 | The handler's status and new tables are `MarkRead` of the old tables: 400 for an empty id or a short reminder id, 404 for a row that is not the user's. |
| Messages.DeleteStored | Backend/controllers/messageController.js:157-161 | Soft delete touches only the caller's row with that id, leaves other users' rows unchanged, and removes the message from the caller's list. |
| Messages.DeleteDueSoon | Backend/controllers/messageController.js:141-154 | Deleting a due-soon reminder answers 200, leaves the stored rows alone and dismisses the reminder, so it shows as read. |
| Messages.SoftDelete | Backend/controllers/messageController.js:158-161 | Exactly the caller's rows with the id become deleted. |
| Messages.SetRead | Backend/controllers/messageController.js:243-246 | Exactly the caller's rows with the id get `read = 1`. |
| Messages.MessageStore.DeleteMessage | Backend/controllers/messageController.js:135-174 | The handler's status and new tables are `Delete` of the old tables: a reminder id appends a dismissed row with a plain insert and answers 200; any other id soft deletes the caller's row with that id and answers 200. |
| Messages.CreateSpec | Backend/controllers/messageController.js:268-282 | A request missing user id, type, title or content is 400 and inserts nothing. Otherwise exactly one unread, undeleted row of that user is appended, and a missing or zero loan id is stored as NULL. |
| Messages.MessageStore.CreateMessage | Backend/controllers/messageController.js:268-296 | The handler's status and new table are `Create` of the old table, and the id it reports is the row's id. |
| Notifications.NotificationStore.GetUserNotifications | Backend/controllers/notificationController.js:4-97 | The push loops build exactly `UserNotifications` of the table. |
| Notifications.UserNotificationsSpec | Backend/controllers/notificationController.js:22-92 | The list is due-soon reminders, then overdue reminders, then stored rows. Every reminder is an unread one for one of the user's qualifying loans. Every other entry is one of the user's rows. Conversely, every due-soon and every overdue loan of the user has its reminder in the list. |
| Notifications.DueSoonComplete | Backend/controllers/notificationController.js:56-67 | Every due-soon loan of the user has its unread reminder in the due-soon section. |
| Notifications.OverdueComplete | Backend/controllers/notificationController.js:69-80 | Every overdue loan of the user has its unread reminder in the overdue section. |
| Notifications.RemindersEarliestDueFirst | Backend/controllers/notificationController.js:22-41 | With unique loan ids, two reminders of the same section list their loans earliest due first (`ORDER BY l.due_date ASC`). |
| Notifications.NotificationsFor | Backend/controllers/notificationController.js:44-50 | The 20 newest of the user's rows, newest first: exactly min(20, qualifying) rows, none repeated beyond the table, and every row of the user's left out is no newer than every row kept. All of them when the user has at most 20. |
| Notifications.PushDueSoon | Backend/controllers/notificationController.js:56-66 | The loop appends one due-soon reminder per row, in order. |
| Notifications.PushOverdue | Backend/controllers/notificationController.js:69-79 | The loop appends one overdue reminder per row, in order. |
| Notifications.PushStored | Backend/controllers/notificationController.js:82-92 | The loop appends one notification per stored row, in order. |
| Notifications.DueSoonNotifications | Backend/controllers/notificationController.js:56-66 | One unread due-soon reminder per row, in order. |
| Notifications.OverdueNotifications | Backend/controllers/notificationController.js:69-79 | One unread overdue reminder per row, in order. |
| Notifications.StoredNotifications | Backend/controllers/notificationController.js:82-92 | One notification per row, read exactly when its column is 1. |
| Notifications.DueSoonRowIsReminder | Backend/controllers/notificationController.js:56-66 | A due-soon row gives an unread reminder with id `due_soon_<loan>` for a loan of the user's that is due soon. |
| Notifications.OverdueRowIsReminder | Backend/controllers/notificationController.js:69-79 | An overdue row gives an unread reminder with id `overdue_<loan>` for an overdue loan of the user's. |
| Notifications.MarkReadSpec | Backend/controllers/notificationController.js:108-130 | Always 200. A reminder id writes nothing. Any other id sets `read = 1` on exactly the rows with that id. |
| Notifications.MarkReadIdempotent | Backend/controllers/notificationController.js:122-125 | Marking a notification read twice is marking it once. |
| Notifications.MarkStoredRead | Backend/controllers/notificationController.js:122-125 | A stored notification marked read shows as read in the user's list. |
| Notifications.ReminderStaysUnread | Backend/controllers/notificationController.js:113-119 | Marking a reminder read answers 200 but changes nothing: the reminder is still sent unread. |
| Notifications.NotificationStore.MarkNotificationAsRead | Backend/controllers/notificationController.js:108-138 | The handler's status and new table are `MarkRead` of the old table. |
| Notifications.CreateSpec | Backend/controllers/notificationController.js:141-155 | A request missing a required field is 400 and inserts nothing. Otherwise exactly one unread row is appended, and a missing or zero loan id is stored as NULL. |
| Notifications.NotificationStore.CreateNotification | Backend/controllers/notificationController.js:141-169 | The handler's status and new table are `Create` of the old table, and the id it reports is the new row's. |
| AdminLoans.CalculateLoanStatus | Frontend/js/api/adminLoans.js:63-89 | Exactly one of four statuses. "returned" exactly for a returned loan. "overdue" for an unreturned overdue loan, captioned with the absolute day count. "due-soon" for 2 days or fewer left, else "active". Each status carries its caption ("Returned", "Overdue by n day(s)", "Due soon (n day(s))", "n day(s) left"), and the badge class is a function of the status. |
| AdminLoans.QueryStringRoundTrip | Frontend/js/api/adminLoans.js:10-18 | The query string is empty exactly when there are no parameters. Parsing it gives back the parameters. `status` is sent exactly when it is present and not "all". |
| AdminLoans.PairsRoundTrip | Frontend/js/api/adminLoans.js:10-18 | The `&`-joined encoded pairs parse back to the same name/value pairs. |
| AdminLoans.PairRoundTrip | Frontend/js/api/adminLoans.js:12-15 | One encoded `name=value` pair has no `&` and parses back to the pair. |
| FormEncoding.DecodeEncode | Frontend/js/api/adminLoans.js:18 | Decoding what the `URLSearchParams` serializer writes gives back the original string. |
| FormEncoding.EncodeInjective | Frontend/js/api/adminLoans.js:18 | Different filter values give different query strings. |
| FormEncoding.Encode | Frontend/js/api/adminLoans.js:18 | An encoded value holds no `&` or `=`. |
| FormEncoding.Utf8RoundTrip | Frontend/js/api/adminLoans.js:18 | The UTF-8 bytes of a code point decode back to it, and the lead byte announces the length. |
| MessageList.SortMessages | Frontend/js/components/MessageList.js:17-26 | The result is a permutation of the input, the copy the component sorts. Every unread message precedes every read one. Equal read states are newest first, and a missing time counts as now. |
| MessageList.Render | Frontend/js/components/MessageList.js:11-28 | The "No messages" notice exactly for a missing or empty list. Otherwise one row per message of the sorted list, in that order, so unread rows come first. |
| MessageList.RenderShowsEvery | Frontend/js/components/MessageList.js:28-48 | Every message of a non-empty list gets its row. |
| MessageList.MessageIcon | Frontend/js/components/MessageList.js:118-133 | due_soon gives "exclamation-circle", overdue "exclamation-triangle", borrow_success "check-circle", return_success "undo" and penalty "dollar-sign". Exactly a missing or unknown type gets "envelope". |
| RelativeTime.SpanOf | Frontend/js/components/MessageList.js:141-155 | The bucket by ranges, each an iff: minutes (0 to 59) exactly under an hour, 1 to 23 hours exactly from one hour to a day, "Yesterday" exactly from one to two days, and 2 or more days from two days on. |
| RelativeTime.AgoIsSpanText | Frontend/js/components/NoftificationList.js:54-72 | The cascade of floors picks the bucket the ranges describe. |
| RelativeTime.SpanTextInjective | Frontend/js/components/NoftificationList.js:60-71 | Different buckets give different texts. |
| RelativeTime.YesterdayIff | Frontend/js/utils/utilities.js:175-193 | "Yesterday" exactly when one whole day has passed, "N days ago" from two days on. |
| RelativeTime.OneMinuteIff | Frontend/js/components/NoftificationList.js:60-64 | "1 minute ago" exactly from one to two minutes: the unit is singular exactly for 1. |
| RelativeTime.OneHourIff | Frontend/js/components/NoftificationList.js:65-66 | "1 hour ago" exactly from one to two hours. |
| RelativeTime.DistanceOnly | Frontend/js/components/NoftificationList.js:57 | Future and past times at equal distance format the same, and the two formatters agree on any instant. |
| RelativeTime.NoInstant | Frontend/js/components/MessageList.js:135-137 | The message formatter says "Unknown" exactly for a missing timestamp. The notification formatter turns a missing or unreadable timestamp into "NaN days ago". |
| NotificationList.NotificationIcon | Frontend/js/utils/utilities.js:160-173 | due_soon gives "exclamation-circle", overdue "exclamation-triangle", reservation "check-circle" and new_arrivals "info-circle". Exactly any other type gets "bell". |
| NotificationList.DashboardView | Frontend/js/user.js:603-644 | The "No notifications" notice exactly for an empty list, else one component row per notification, in order. |
| NotificationList.ReminderButtons | Frontend/js/components/NoftificationList.js:22-23 | Every reminder the server sends offers Mark as Read. Renew appears exactly for the due-soon kind, and then for a loan of the user's that is due soon. |
| NotificationList.StoredButtons | Frontend/js/utils/utilities.js:143-144 | A stored notification offers Mark as Read exactly while its column is not 1. |
| NotificationList.MarkReadComesBack | Frontend/js/components/NoftificationList.js:23 | After a reminder is marked read, the next fetch still offers Mark as Read for it. |
| Validation.ValidateEmail | Frontend/js/utils/utilities.js:5-8 | Accepts exactly the strings the pattern `^[^\s@]+@[^\s@]+\.[^\s@]+$` matches. |
| Validation.EmailPatternIff | Frontend/js/pages/index.js:21-24 | The pattern matches exactly when there is no whitespace, a non-empty local part before the only `@`, and a domain with a `.` that has a character on each side. |
| Validation.ConfirmSymmetric | Frontend/js/utils/utilities.js:14-16 | The confirmation check is symmetric. |
| Validation.EmailAccepted | Frontend/js/utils/utilities.js:5-8 | The rule accepts the address `a@b.c`. |
| Validation.SignUpPageSubmit | Frontend/js/pages/index.js:71-92 | A blank field gives "Please fill in all fields." first, then the e-mail, length and confirmation checks in that order. The first failure decides the message. The request is sent exactly when every check passes. |
| Validation.ScriptChecks | Frontend/js/script.js:22-42 | Blank fields first, then the confirmation, then the length, then the e-mail: the first failure decides. |
| Validation.RegisterFormSubmit | Frontend/js/script.js:45-52 | The registration form's submit: the request is sent exactly when every check passes, and an error is shown exactly when one fails. |
| Validation.StaticScriptSubmit | js/script.js:17-43 | The same chain, and success plus a form reset, without any request, exactly when every check passes. |
| Validation.ChainsAgree | js/script.js:17-37 | The three chains accept the same inputs and agree on "Please fill in all fields.". |
| Validation.FirstFailureDiffers | Frontend/js/script.js:27-42 | On a bad address with a mismatched confirmation, the chains report different first failures. |
| Validation.PasswordFeedback | Frontend/js/script.js:88-104 | Valid exactly for 6 or more characters, neutral exactly when empty. |
| Validation.ConfirmFeedback | Frontend/js/script.js:106-123 | Valid exactly when non-empty and equal to the password, neutral exactly when empty. |
| Validation.EmailFeedback | Frontend/js/script.js:125-142 | Valid exactly when the rule accepts, neutral exactly when empty. |
| Validation.FeedbackPredictsAcceptance | Frontend/js/script.js:88-142 | Green feedback on all three fields, with the other fields filled, means every chain accepts. |
| Validation.BordersMatchFeedback | js/script.js:68-104 | Each border colour follows the dashboard script's feedback, and green means the rule accepts. |
| UserPage.FilterBooks | Frontend/js/pages/user.js:256-282 | The two filters in a row are one filter of the catalogue by `Shown`. A book is kept exactly when its lowercase title, author or isbn contains the trimmed lowercase term and its genre matches case-insensitively. An empty term with genre "all" keeps everything. |
| UserPage.GroupByGenre | Frontend/js/pages/user.js:175-182 | The loop throws (no result) exactly when some book's key is a name an object inherits from `Object.prototype`. Otherwise it yields exactly `GroupsOf`: each group holds the books with that key, "Uncategorized" for none, in catalogue order. |
| UserPage.GroupsOfSpec | Frontend/js/pages/user.js:175-182 | The keys are exactly the books' genres, or "Uncategorized". Each group is the order-preserving filter of its key, so every book is in exactly one group. |
| UserPage.DisplayBooks | Frontend/js/pages/user.js:165-189 | The "No books found" notice exactly for a missing or empty list. A TypeError exactly when some key is an inherited name. Otherwise the sections come in strictly sorted key order, one per key, each holding its group. |
| UserPage.SectionsOf | Frontend/js/pages/user.js:185-189 | The sections drawn from the grouped dictionary have strictly sorted headings, exactly the books' keys, each with the books of that key in order. |
| UserPage.PrototypeGenreExample | Frontend/js/pages/user.js:175-182 | A one-book catalogue with genre "constructor" makes the loop throw, while the intended grouping lists the book under "constructor". |
| UserPage.KeysOf | Frontend/js/pages/user.js:187 | The keys listed are exactly the group keys. |
| UserPage.PopulateGenreFilter | Frontend/js/pages/user.js:296-312 | Nothing for an empty catalogue. Otherwise "all", then the books' non-empty genres, sorted and without duplicates. |
| UserPage.GenresOf | Frontend/js/pages/user.js:302 | Exactly the genres of books that have one. |
| UserPage.IsSameIdSpec | Frontend/js/pages/user.js:599-605 | True exactly when the string forms agree. It is reflexive and symmetric, numeric ids compare by value, and a number equals its own decimal text. |
| UserPage.CountUnread | Frontend/js/pages/user.js:573-575 | The number of messages not read. |
| UserPage.FirstMatch | Frontend/js/pages/user.js:615 | The first index whose id matches, or none when no id matches. |
| UserPage.MarkLocalSpec | Frontend/js/pages/user.js:615-645 | Only the first matching message becomes read, and every other message is unchanged. The unread count drops by one exactly when it was unread. With no match nothing changes. |
| UserPage.MessageState.MarkMessageAsRead | Frontend/js/pages/user.js:608-645 | The local state update is `MarkLocal`, and it reports whether a match was found. |
| UserPage.DeleteLocalSpec | Frontend/js/pages/user.js:684-718 | Every matching message is removed and the rest keep their order. The unread count drops by the unread messages removed. |
| UserPage.MessageState.DeleteMessage | Frontend/js/pages/user.js:678-718 | The local list becomes `DeleteLocal` of the old list, and the answer is true. |
| Dashboard.GenreFilter.Populate | Frontend/js/user.js:44-68 | The genre set only grows: it holds the old genres plus those of every book given, and the selection is kept. |
| Dashboard.GenreFilter.Select | Frontend/js/user.js:562-566 | Picking an offered option makes it the selection and changes nothing else. |
| Dashboard.GenreFilter.constructor | Frontend/js/user.js:17 | The accumulated genre set starts empty, with "All Genres" selected. |
| Dashboard.FilterByGenre | Frontend/js/user.js:112-130 | An empty selection shows every book. Otherwise the notice appears exactly when no book has that genre. If not, exactly the books whose genre equals the selection (case-sensitive) are shown, in order. |
| Dashboard.SearchTrigger | Frontend/js/user.js:32-41 | A trimmed term of 2 or more characters searches for it, a blank term fetches all, and a single character does nothing. |
| Dashboard.BadgeAgreesWithAdmin | Frontend/js/user.js:303-321 | The dashboard's loan badge has the same caption and class as `calculateLoanStatus` for an unreturned loan. The row is unhighlighted exactly for the "active" status. |
| Dashboard.ParseIntRoundTrip | Frontend/js/user.js:703 | `parseInt` reads back every integer the counter shows. |
| Dashboard.DecrementedCount | Frontend/js/user.js:700-710 | After a successful mark-as-read, a counter showing `n` shows `n - 1` while that is positive and is hidden otherwise. |
| Dashboard.NotANumberHides | Frontend/js/user.js:703-709 | A counter with no digits (NaN) is hidden. |
| Dashboard.NotificationBadge.MarkedOneRead | Frontend/js/user.js:700-710 | The counter's new text and visibility are `Decremented` of the old ones. |
| Dashboard.StoreProfileSpec | Frontend/js/user.js:755-773 | `userName` prefers `full_name`, then `fullName`, then `username`. A truthy e-mail is stored; a falsy one leaves the stored value (or its absence) as it was. `userId` is kept as it was. Other keys are untouched. |
| Dashboard.StoredSpec | Frontend/js/user.js:771-773 | Exactly the truthy entries are written. Every other key keeps its old value. |
| Dashboard.ProfileStorage.StoreProfileData | Frontend/js/user.js:755-774 | Without a user nothing is stored. Otherwise storage becomes `Stored` of the old storage and the profile entries. |
| AdminPage.AddBookSubmit | Frontend/js/pages/admin.js:277-296 | The book is sent exactly when title, author and quantity are all non-empty, and it is sent as the form holds it. Otherwise the error message is shown. |
| AdminPage.AddBookOtherFieldsIgnored | Frontend/js/pages/admin.js:283-286 | Fields other than the three required ones never change the decision. |
| AdminPage.AddUserSubmit | Frontend/js/pages/admin.js:299-354 | Every field is trimmed. An empty username, e-mail, password or role is refused first, then a bad address, then a password under 6 characters. Otherwise the trimmed user is sent, with a blank department as null. |
| AdminPage.AddUserSendsTrimmed | Frontend/js/pages/admin.js:304-309 | Submitting again what was sent gives the same result: trimming is already done. |
| AdminPage.SearchBooks | Frontend/js/pages/admin.js:379-393 | Nothing happens for an empty list. The search throws exactly when some book's test reaches a null title or author. Otherwise it shows the catalogue filtered by `BookMatches`: in order, exactly the books whose title, author or non-null genre contains the lowercase term. |
| AdminPage.SearchBooksTotal | Frontend/js/pages/admin.js:384-389 | With every title and author present the search never throws, and an empty term shows every book. |
| AdminPage.BookTestAgrees | Frontend/js/pages/admin.js:386-388 | Where the test does not throw, it answers whether the book matches. |
| AdminPage.SearchUsers | Frontend/js/pages/admin.js:395-408 | Nothing for an empty list. It throws exactly when some user's test reaches a null username or e-mail. Otherwise it shows the list filtered by `UserMatches`: in order, exactly the users whose lowercase username or e-mail contains the lowercase term. |
| AdminPage.UserTestAgrees | Frontend/js/pages/admin.js:400-404 | Where the test does not throw, it answers whether the user matches. |
| AdminPage.SearchUsersIgnoresCase | Frontend/js/pages/admin.js:397 | The user search ignores the case of the term. |
| AdminPage.SidebarRelaxesSignUp | Frontend/js/pages/admin.js:552-572 | The sidebar password and confirm checks accept an empty password and otherwise equal the registration rules. |
| AdminPage.ProfileSubmit | Frontend/js/pages/admin.js:613-659 | The alert appears exactly when a check fails. Otherwise the request body is `ProfileData` of the form. |
| AdminPage.ProfileData | Frontend/js/pages/admin.js:646-658 | The body holds the trimmed e-mail exactly when the field exists, and the password as typed exactly when it is non-empty. |
| AdminPage.ProfileSendsChecked | Frontend/js/pages/admin.js:613-658 | A sent password was typed, is at least 6 characters long and matches the confirmation. A sent e-mail passes the pattern. |
| Strings.TrimIdempotent | Frontend/js/pages/admin.js:304-309 | Trimming twice is trimming once. |
| Strings.TrimEmptyIffBlank | Frontend/js/user.js:33-38 | A trimmed string is empty exactly when it was all whitespace. |
| Strings.TrimStart | Frontend/js/user.js:33 | It removes exactly the leading whitespace. |
| Strings.TrimEnd | Frontend/js/user.js:33 | It removes exactly the trailing whitespace. |
| Strings.ToLower | Frontend/js/pages/user.js:259 | It lowercases each character in place and keeps the length. |
| Strings.ToLowerIdempotent | Frontend/js/pages/admin.js:381 | Lowercasing twice is lowercasing once. |
| Strings.Includes | Frontend/js/pages/user.js:268-270 | `includes` holds exactly when the pattern occurs at some position. |
| Strings.Split | Backend/controllers/messageController.js:142 | At least one piece, and no piece contains the separator. |
| Strings.JoinSplit | Backend/controllers/messageController.js:142-143 | Joining the pieces of a split gives back the string. |
| Strings.SplitJoin | Backend/controllers/messageController.js:142-144 | Splitting a join of separator-free pieces gives back the pieces. |
| Strings.NatToString | Backend/controllers/messageController.js:71 | `String(n)` gives decimal digits with no leading zero. |
| Strings.NatToStringRoundTrip | Backend/controllers/messageController.js:144 | Reading the digits back gives `n`. |
| Strings.NatToStringInjective | Backend/controllers/messageController.js:62 | Different loan ids give different keys. |
| Strings.IntToStringInjective | Frontend/js/user.js:706 | Different counts print differently. |
| Strings.Utf16Length | Frontend/js/utils/utilities.js:11 | `.length` counts UTF-16 units: between one and two per character, and 0 exactly for the empty string. |
| Strings.LessTransitive | Frontend/js/pages/user.js:304 | The order `sort()` uses is transitive. |
| Strings.LessTotal | Frontend/js/pages/user.js:304 | The order `sort()` uses is total. |
| Strings.LessIrreflexive | Frontend/js/pages/user.js:304 | The order `sort()` uses is irreflexive. |
| Sorting.SortBy | Frontend/js/components/MessageList.js:17-26 | Sorted by the key and a permutation of the input. |
| Sorting.SortByStable | Frontend/js/components/MessageList.js:17-26 | The sort is stable: for every key, the elements with that key come out in their input order. |
| Sorting.InsertBy | Frontend/js/components/MessageList.js:17-26 | Inserting into a sorted list keeps it sorted and adds exactly that element. |
| Sorting.SelectOrdered | Backend/controllers/messageController.js:44-50 | Filter, order, then `LIMIT n`: exactly min(n, qualifying) rows, a sub-multiset of the qualifying ones, in key order. Every qualifying row left out sorts no earlier than every row kept, and all of them are kept when at most `n` qualify. |
| Sorting.Filter | Frontend/js/pages/user.js:266-278 | `filter` keeps exactly the elements that pass, in order, as a subsequence. |
| Sorting.FilterFilter | Frontend/js/pages/user.js:262-279 | Two filters in a row keep what both keep. |
| Sorting.CountIsFilterLength | Frontend/js/pages/user.js:574 | The count of elements passing is the length of the filter. |
| Sorting.SortedUnique | Frontend/js/pages/user.js:300-304 | `[...new Set(xs)].sort()` is strictly sorted and holds exactly the elements of `xs`. |
| Sorting.StrictlySortedUnique | Frontend/js/pages/user.js:300-304 | Two strictly sorted lists with the same elements are equal, so the genre list is determined by the genres. |

## Left out

- Authentication (`authController.js`, `authMiddleware.js`): bcrypt and JSON web tokens are foreign libraries. The caller's user id is a parameter.
- `bookController.js`, `userController.js`, the models, the routes and `server.js` are single queries and Express wiring. The API wrappers, `navigation.js`, `login.js`, `editBook.js`, the rendering components (`BookList.js`, `LoanList.js`, `UserList.js`, `ErrorMessage.js`, `Penalties.js`) and `Frontend/js/admin.js` are not part of this model: they only move data or draw it.
- Penalty points, tiered limits and penalty history: `loanRoutes.js` imports handlers that `loanController.js` does not export, so there is no behaviour to model. The loan limit is the flat five of `borrowBook`.
- Concurrency and transaction isolation: each transaction is one atomic method. Races between two borrows are not modelled, and neither is the connection pool.
- The DOM, `fetch`, `localStorage` and timers: only the decisions around them are modelled. Storage is a map, responses are outcomes, and a request is an outcome value. The server-refetch paths that the local `markMessageAsRead` and `deleteMessage` take when nothing matches are not modelled beyond their return value.
- Clocks and time zones: `now` and `today` are parameters. A due date is a millisecond count, and its day is its floor division by one day in UTC. MySQL's `CURDATE()` in the server's time zone is not modelled.
- `MessageList.SortMessages`: a timestamp that `new Date` cannot read makes the comparator return NaN, which leaves the order to the engine. The model sorts such a message as if it were written now, like one without a timestamp.
- Floating point: the loan-progress percentages are not modelled.
- `Strings.ToLower`: lowercases ASCII letters only. Unicode case mapping (including characters whose lowercase has a different length) is not modelled.
- `Strings.Less`: strings compare by code point. JavaScript's default `sort` compares UTF-16 units, which differs only for characters outside the Basic Multilingual Plane.
- `Dashboard.ParseInt`: models `parseInt` on decimal text (leading blanks, sign, digit prefix). The `0x` prefix and radix detection are not modelled, because the counter only ever holds decimal text.
- `AdminLoans.ParseQuery`: reads back only what the serializer writes. It is not a full `URLSearchParams` parser.
- SQL type coercion: ids compared with `id = ?` are compared as decimal text. MySQL's numeric coercion of strings like `"01"` is not modelled.
- Ties: rows with equal `due_date` or `created_at` are kept in table order (`Sorting.SortByStable`), which also decides which tied rows a `LIMIT` keeps at its boundary. SQL leaves their order unspecified, so the model picks one of the orders the database may return.
- The empty-`userId` checks of `getUserMessages` and `getUserNotifications` are not modelled: Express routes never deliver an empty path segment there.
- `Messages.MarkRead`: `ON DUPLICATE KEY UPDATE` is modelled as "insert unless the same dismissed row is already there". The table's schema is not part of this model; any key on the table makes it behave so, and without one the extra row changes no dismissed key. `Messages.Delete` assumes no key and always appends.
- Notifications: a row's `read` column is an integer. A NULL column, which would read as unread, is not modelled separately.
- The add-book and add-user requests' server errors and success messages: the model stops at the decision to send. The admin form also trims the password before sending. `AdminPage.AddUserSubmit` states that trim as written.
- `Dashboard.GenreFilter.Select`: the DOM silently ignores a value that is not an option. The model requires the value to be one of the options.

## Findings

| source | as written | input that shows it | evidently intended | confidence | as-written member | corrected member |
|---|---|---|---|---|---|---|
| Backend/controllers/loanController.js:51-55 | `returnBook` marks the loan returned and adds a copy to the shelf without checking that the loan was still out | a book with quantity 1: borrow it, return loan 0, return loan 0 again; the quantity becomes 2 | a loan already returned is refused, so that shelf copies plus copies on loan stay constant | not executed | Loans.ReturnTwiceInflatesStock | Loans.ReturnOnceConservesStock |
| Frontend/js/pages/user.js:175-182 | `booksByGenre` is a plain `{}`, so a genre named like an `Object.prototype` member (`constructor`, `toString`, `__proto__`, ...) is found truthy, no array is made, and `.push` throws a TypeError | a catalogue with one book whose genre is `constructor`: `displayBooks` stops before it draws the list | every genre gets its own group (an object without a prototype, or a `Map`) | not executed | UserPage.GroupByGenre | UserPage.GroupsOfSpec |
| Backend/controllers/messageController.js:193-202 | the reminder id is split on every `_`, so `overdue_<n>` has two pieces and is refused with 400 | `PUT /api/messages/overdue_7/read`; deleting it instead stores type `overdue_7` with loan NULL, which never matches the key `overdue_7` | both kinds of reminder can be marked read: the id is read as its prefix and the loan id | not executed | Messages.OverdueNeverRead | Messages.MarkReminderReadIntended |

For the first and third findings, the classes model the code as written
(`Loans.Library.ReturnBook`, `Messages.MessageStore.MarkMessageAsRead`). Each class also
offers the corrected operation (`Loans.Library.ReturnBookOnce`,
`Messages.MessageStore.MarkMessageAsReadIntended`), proved against `Loans.ReturnOnce` and
`Messages.MarkReadIntended`. For the second, `UserPage.DisplayBooks` keeps the throw as
written, and `UserPage.GroupsOf` is the intended grouping that `UserPage.SectionsOf`
draws. `Loans.DoubleReturnExample` works the first input through both versions, and
`UserPage.PrototypeGenreExample` the second.
