# DayX front-end and account rules in Dafny

DayX is a student organiser: a month calendar of the university timetable
plus the user's own events, a task board, team notifications and a profile
holding the user's study group. This project models the decision logic of
its pages and of the account routes as pure functions on immutable records,
and proves what those rules guarantee.

- `text.dfy` (`Text`): decimal text and its parser, `padStart(2, "0")`,
  JavaScript's `||` on strings, `String.prototype.trim` and the whitespace it
  strips.
- `calendar.dfy` (`Calendar`): proleptic Gregorian dates counted from
  Monday 1 January of year 1. It covers the date key `YYYY-MM-DD`, the
  Monday-first weekday of a month's first day, the days-in-month rule, and
  the month step `setMonth(getMonth() ± 1)`, which keeps the day of month.
- `schedule.dfy` (`Schedule`): the calendar page. It covers the merge of the
  timetable with the user's events, the per-day buckets, the month grid,
  event labels, and the editing target (`editingEventId` /
  `editingEventDate`). It also covers the guards and bodies of the save,
  rename, retime and delete requests. Each handler maps the page state, the
  user's input, the answer of `confirm()` and the server's reply to the next
  state and the requests sent.
- `notifications.dfy`: the notification record and unread count
  (`Notifications`). The bell of base.js (`Bell`) has the "99+" counter,
  the high-water mark that decides browser notifications, per-item buttons
  and the confirmations before a delete. The teams pages' list (`TeamsFeed`)
  has the uncapped counter, one desktop alert remembered by id, item links
  and clicks, and team creation.
- `localtime.dfy` (`LocalTime`): the `DD.MM.YYYY о HH:MM` text written into
  `.local-time` elements.
- `tasks.dfy` (`Tasks`): the task board. It covers the column a card goes
  to, the deadline's "Z" normalisation and urgency, the editor's prefill,
  the value the datetime-local deadline input keeps, the create/update
  request, the completion toggle, deletion behind a confirmation and the
  context menu.
- `accounts.dfy` (`Accounts`): `load_logged_in_user`, `login` and `profile`.
  The users table is a map from id to row.

Conventions:
- A JavaScript field that may be missing, `null` or empty is a string, with
  `""` standing for all three: they behave alike under `||`.
- An id checked with `!id` is an `Option<int>` that is truthy when present
  and non-zero.
- Requests are values, and the server's verdict (`response.ok`, or a failed
  fetch) is an input.

## Model

| member | source | states |
|---|---|---|
| Text.Pad2IsPadStart | static/schedule.js:12-13 | the two-digit field equals `padStart(2, "0")` on the number's decimal text |
| Text.Pad2RoundTrip | static/schedule.js:12-13 | a padded field below 100 is two digits that read back as the number |
| Text.ParseIntOfIntToString | static/teams.js:102 | an integer written in decimal (with its sign) reads back as itself, so an id placed in a URL or a date key is recoverable |
| Text.Trim | static/schedule.js:285 | the result is the slice of the input left between leading and trailing JavaScript whitespace; it is empty exactly when the input is all whitespace, and otherwise neither starts nor ends with whitespace |
| Calendar.DaysInMonth | static/schedule.js:92 | every month has 28..31 days, and February has 29 exactly in Gregorian leap years |
| Calendar.WeekdayNext | static/schedule.js:17-20 | the Monday-first weekday advances by one, modulo 7, from each day to the next |
| Calendar.KnownWeekdays | static/schedule.js:17-20 | the day count puts 1 January 1970 on a Thursday, 1 December 2024 on a Sunday and 10 March 2025 on a Monday |
| Calendar.FirstWeekdayOffset | static/schedule.js:17-20 | the number of blank cells is in 0..6 and is the Monday-first weekday (Monday 0, Sunday 6) of day 1 of the month |
| Calendar.FormatDate | static/schedule.js:10-15 | the key is the year's decimal text, a hyphen, the two-digit month, a hyphen and the two-digit day; a four-digit year gives 10 characters |
| Calendar.ParseFormatDate | static/schedule.js:10-15 | the key of a valid date reads back as that date |
| Calendar.FormatDateInjective | static/schedule.js:10-15 | two valid dates share a key exactly when they are the same day, for any number of year digits |
| Calendar.ConstructedYear | static/schedule.js:111 | `new Date(year, month, day)` reads years 0..99 as 1900..1999 and keeps every other year, so the year it uses is never in 0..99 |
| Calendar.ShiftMonth | static/schedule.js:411-418 | the new date is day-of-month minus one days after day 1 of the aimed-at month, as `setMonth` computes it, and is a valid date |
| Calendar.ShiftMonthLanding | static/schedule.js:411-418 | the step lands in the aimed-at month exactly when that month has the current day of month, else in the month after it |
| Calendar.MonthStepSkips | static/schedule.js:411-418 | "next" on 31 January 2025 shows March, "previous" on 31 March 2025 stays in March, and "next" on 30 January 2024 lands on 1 March |
| Schedule.Merge | static/schedule.js:59-68 | the merged list is every timetable entry marked not custom, then every user event marked custom, each in server order |
| Schedule.EventsAfterFetch | static/schedule.js:53-73 | a failed fetch empties the list; otherwise an event is custom exactly when it comes from the user's events |
| Schedule.EventKey | static/schedule.js:78 | an event is filed under its `date`, or under `event_date` when `date` is empty; the key is empty only when both are |
| Schedule.EventsForDate | static/schedule.js:76-81 | the bucket holds exactly the events whose `date \|\| event_date` is the key |
| Schedule.EventsForDateAppend | static/schedule.js:76-81 | bucketing splits over concatenation, so a bucket keeps list order |
| Schedule.CellOrder | static/schedule.js:59-81 | a day's bucket is that day's timetable entries, then that day's user events, each in server order and tagged |
| Schedule.DisplayTitle | static/schedule.js:163 | the title is never empty and follows the fallback order: the event's title when it has one, else its subject, else its name, else "Подія" |
| Schedule.Label | static/schedule.js:163-170 | the label starts with the first 15 characters of the title; a space and the start time follow exactly when a start time exists |
| Schedule.DayCell | static/schedule.js:110-139 | a day cell has its day number and date key, is "today" iff its key is today's, and shows the first min(n, 3) events of its bucket with a "+(n-3)" counter exactly when n > 3 |
| Schedule.Grid | static/schedule.js:89-110 | the grid has the month's offset plus its number of days as cells |
| Schedule.GridLayout | static/schedule.js:103-112 | the first offset cells are fillers; the cell after them is day 1, and each further cell is the next day's cell |
| Schedule.TodayMarker | static/schedule.js:93-116 | some cell is marked today exactly when today lies in the month shown, and only today's own cell can be |
| Schedule.CellEvents | static/schedule.js:128-132 | every entry in a day cell is one of the page's events filed under that cell's key |
| Schedule.Start | static/schedule.js:22-32 | without a group nothing is fetched; otherwise subgroup 1 is fetched once, and no event is targeted |
| Schedule.ClickSubgroup | static/schedule.js:37-47 | a subgroup click always fetches again and changes only the subgroup and the events |
| Schedule.EventMenu | static/schedule.js:173-196 | right-clicking a user event targets its id and cell date; right-clicking a timetable entry changes nothing |
| Schedule.EmptyMenu | static/schedule.js:197-203 | right-clicking a day outside its entries targets no event and that day's date |
| Schedule.CloseModal | static/schedule.js:212-216 | closing the form forgets both the targeted event and its date |
| Schedule.OpenFullModal | static/schedule.js:219-249 | the form edits only a custom event, keeping its id as target; otherwise it is an empty "other" form with no target; the target date is always the given one. The page only calls it without an event (line 423), so its edit branch is not reachable from the page |
| Schedule.AddEventClicked | static/schedule.js:421-424 | "add event" opens an empty "other" form dated with the remembered date ("" when there is none), with no target; the shown month, events and subgroup stay as they were |
| Schedule.FindEvent | static/schedule.js:253 | the result is absent exactly when no event has the id, else it is the first event with it |
| Schedule.OpenEditName | static/schedule.js:251-261 | the rename form opens exactly when a truthy target is among the events, prefilled with its title |
| Schedule.OpenEditTime | static/schedule.js:263-275 | the time form opens exactly when a truthy target is among the events, prefilled with its times |
| Schedule.SaveEvent | static/schedule.js:278-315 | a blank title sends nothing and changes nothing; otherwise the form is posted with the target id (none creates an event). A success clears the target, keeps the shown month and subgroup, and sends the post followed by a fetch of that subgroup. A failed post leaves the state as it was and sends only the post |
| Schedule.SaveEventName | static/schedule.js:317-351 | a request goes out exactly when a truthy target exists, the name is not blank and the event is loaded; it carries the stored event with the new title. The target is kept. A success reloads the events and sends the post followed by a fetch of the same subgroup; a failed post changes nothing and sends only the post |
| Schedule.SaveEventTime | static/schedule.js:353-384 | a request goes out exactly when a truthy target is loaded; it carries the stored event with the new start and end. The target is kept. A success reloads the events and sends the post followed by a fetch of the same subgroup; a failed post changes nothing and sends only the post |
| Schedule.Delete | static/schedule.js:386-402 | a delete is sent exactly when a truthy target exists and the confirmation is accepted, for that target. The target is kept even after a success, which reloads the events and sends the delete followed by a fetch of the same subgroup; a failed delete changes nothing and sends only the delete |
| Schedule.ShowToday | static/schedule.js:406-409 | "today" shows the current date and keeps the subgroup, the events and both halves of the target |
| Schedule.PrevMonth | static/schedule.js:411-414 | "previous" moves the shown date by a month step of -1 and keeps the subgroup, the events and both halves of the target |
| Schedule.NextMonth | static/schedule.js:416-419 | "next" moves the shown date by a month step of +1 and keeps the subgroup, the events and both halves of the target |
| Schedule.EditsChangeOneThing | static/schedule.js:325-367 | the rename body differs from the stored event only in the title, the retime body only in the two times |
| Schedule.EditsFallBackToCellDate | static/schedule.js:331-364 | an event without its own date is written under the date of the cell it was opened from |
| Schedule.FullFormCreatesOrUpdates | static/schedule.js:228-298 | saving the full form opened from an event updates it exactly when it is custom and creates a new event otherwise; no handler of the page opens the form with an event, so this holds for other callers only |
| Schedule.AddFromEmptyCell | static/schedule.js:197-298 | empty-cell menu, "add event" and save with a title create an "other" event on that day with no times |
| Schedule.TargetOnlyCustomEvents | static/schedule.js:173-249 | the menus and the full form set a target only to a custom event's id, so a target within a set holding the reachable custom events stays within it |
| Schedule.TargetKeptByRequests | static/schedule.js:278-402 | subgroup clicks, saves, renames, retimes and deletes keep the target or clear it, so such a target stays within that set |
| Schedule.TargetKeptByNavigation | static/schedule.js:406-419 | the month buttons keep the target |
| Schedule.TimetableIdShadowsCustom | static/schedule.js:59-68 | a timetable entry with the target's id is the event the lookup finds, since timetable entries come first |
| Schedule.DeclinedDeleteSendsNothing | static/schedule.js:387 | a declined confirmation sends nothing and changes nothing |
| Notifications.Unread | static/base.js:90 | the filter keeps exactly the unread records |
| Notifications.CountUnread | static/teams.js:54 | the count is zero exactly when every record is read, and never exceeds the list |
| Notifications.UnreadLength | static/base.js:90 | the filter's length is the number of unread records |
| Notifications.UnreadAppend | static/teams.js:27 | the filter splits over concatenation, so unread records keep the order the server sent |
| Notifications.UnreadHead | static/teams.js:27-34 | the filter's first record is the list's first unread record, the newest since the list comes newest first |
| Bell.BellCounter | static/base.js:89-97 | the counter is hidden exactly when all are read; up to 99 it shows digits reading back as the unread count, above 99 "99+" |
| Bell.Fresh | static/base.js:65 | the new records are exactly those newer than the mark and unread |
| Bell.FreshAppend | static/base.js:65 | selecting new records splits over concatenation, so it keeps list order |
| Bell.FetchNotifications | static/base.js:49-87 | a failed fetch changes nothing; a successful one redraws the counter; the list is redrawn iff manual or open; the first non-empty answer at mark 0 only sets the mark; an automatic check calls `showBrowserNotification` for the first three new records and moves the mark to the head only when some were new |
| Bell.PopupsAreFresh | static/base.js:58-77 | at most three calls to `showBrowserNotification`, each for an unread record newer than the mark; a set mark moves only together with a popup, to the head record's id |
| Bell.FirstArrivalAfterEmptyLoadIsSilent | static/base.js:58-60 | after an empty first load the mark stays 0, so the first record to arrive only sets the mark and raises no notification |
| Bell.ItemButtons | static/base.js:121-152 | accept/decline iff an unread invitation, "mark read" iff unread and not an invitation, delete always |
| Bell.OneWayToSettle | static/base.js:121-152 | an unread record offers exactly one of accept/decline and "mark read"; a read one offers neither |
| Bell.RenderList | static/base.js:107-113 | the placeholder appears exactly for an empty list; otherwise each record gets its buttons in order |
| Bell.Delete | static/base.js:216-230 | a delete is sent exactly when confirmed |
| Bell.DeclineInvite | static/base.js:181-188 | declining sends the delete only when both confirmations are accepted |
| TeamsFeed.TeamsCounter | static/teams.js:54-63 | hidden exactly at zero unread; otherwise digits reading back as the count, with no cap |
| TeamsFeed.DesktopAlert | static/teams.js:28-51 | only the newest unread record counts; it is remembered iff nothing is stored or it is newer than the stored id, and shown iff that holds and permission is granted |
| TeamsFeed.StoredIdNeverDecreases | static/teams.js:31-50 | once an id is stored it stays stored and never goes down |
| TeamsFeed.NoRepeatAlert | static/teams.js:31-50 | polling the same list again after an alert shows nothing |
| TeamsFeed.AlertIsFirstUnread | static/teams.js:27-50 | the alert concerns the first unread record of the list: shown exactly when permission is granted and its id is above the stored one or none is stored, which is then its id |
| TeamsFeed.Item | static/teams.js:83-126 | accept/decline iff an unread invitation; a link iff a chat message, to `/team/<related_id>`; both icon buttons always |
| TeamsFeed.RenderList | static/teams.js:66-76 | the placeholder appears exactly for an empty list; otherwise one item per record in order |
| TeamsFeed.ItemClick | static/teams.js:101-141 | a click off the buttons follows a chat message's link; it marks any other record read exactly when none of the record's kind, title and message contains an apostrophe, which would cut short the single-quoted JSON attribute; a click on a button does neither |
| TeamsFeed.DeleteClicked | static/teams.js:151-156 | the delete icon sends a delete of that record at once when teams.js's `deleteNotification` is the global; when base.js also runs, its replacement asks first and deletes only when confirmed |
| TeamsFeed.DeclineClicked | static/teams.js:211-217 | declining sends the delete with no confirmation, the request of the unconfirmed delete icon |
| TeamsFeed.CreateTeamClicked | static/teams.js:235-244 | a name that trims to nothing sends nothing; otherwise the trimmed, non-blank name is sent |
| TeamsFeed.CountersDiffer | static/teams.js:57-58 | above 99 unread the teams counter and the bell's differ |
| LocalTime.LocalTimeText | static/base.js:287-294 | the text is the two-digit day and month with dots, the year's decimal text, then " о " and the two-digit hours and minutes |
| LocalTime.LocalTimeWidth | static/base.js:287-294 | with a four-digit year the text is 18 characters |
| LocalTime.LocalTimeRoundTrip | static/base.js:287-294 | the text reads back as the fields it was built from |
| Tasks.ListId | static/tasks.js:70-72 | a card's column id is its status prefix followed by its context name |
| Tasks.ContextName | static/tasks.js:70 | a truthy team id gives `team-` followed by the id's decimal text, anything else "personal" |
| Tasks.ContextRoundTrip | static/tasks.js:70-72 | a status prefix and context name read back as the status and the team |
| Tasks.ListIdRoundTrip | static/tasks.js:70-72 | a card's column id reads back as the task's status and team |
| Tasks.SameColumnIff | static/tasks.js:70-76 | two cards share a column exactly when they agree on status and team |
| Tasks.Column | static/tasks.js:68-78 | a column holds exactly the tasks whose column id it is |
| Tasks.ColumnAppend | static/tasks.js:68-78 | building columns splits over concatenation, so each column keeps the reply order |
| Tasks.BoardColumns | static/tasks.js:59-82 | after a failed fetch every column keeps its cards; after a successful one a column holds exactly the reply's tasks with its id, each after the column cards of the tasks before it in the reply and before those of the tasks after it |
| Tasks.NormalizeDeadline | static/tasks.js:95 | the result ends in "Z" and starts with the input; it adds one character exactly when the input did not end in "Z" |
| Tasks.NormalizeIdempotent | static/tasks.js:95 | normalising twice equals normalising once |
| Tasks.Deadline | static/tasks.js:90-105 | no deadline gives "Без дедлайну"; a task is urgent iff it has a deadline, is not completed, and the deadline's instant is before now |
| Tasks.NeverUrgent | static/tasks.js:90-104 | completed tasks and tasks without a deadline are never urgent |
| Tasks.UrgencyPersists | static/tasks.js:104 | an urgent task stays urgent as time passes |
| Tasks.ZSuffixIrrelevant | static/tasks.js:95-96 | a deadline with or without its "Z" is displayed and ranked alike |
| Tasks.InputValue | static/tasks.js:38 | the datetime-local input keeps a value exactly when it is a real date and time YYYY-MM-DD, "T" or a space, HH:MM; it then holds the same text with "T", and otherwise "" |
| Tasks.InputValueFixedPoints | static/tasks.js:38 | the input keeps a value unchanged exactly when it is empty or already YYYY-MM-DDTHH:MM, and sanitising twice equals once |
| Tasks.OpenModal | static/tasks.js:24-43 | a new task gets a reset form; an edit is prefilled with the task's title and description, and its deadline input is non-empty exactly when the deadline's first 16 characters are accepted, then holding them with "T" as separator |
| Tasks.PrefillKeepsInputShape | static/tasks.js:38 | the prefill shows the stored deadline unchanged exactly when it is empty or YYYY-MM-DDTHH:MM |
| Tasks.SpaceSeparatorNormalised | static/tasks.js:38 | "2025-03-10 09:00" is prefilled as "2025-03-10T09:00" |
| Tasks.BareDateDropped | static/tasks.js:38 | a bare date "2025-03-10" is prefilled as "" |
| Tasks.MissingDayDropped | static/tasks.js:38 | a day the month lacks, "2025-02-29T09:00", is prefilled as "" |
| Tasks.TabTeamId | static/tasks.js:175-177 | a team id is sent exactly from a `team-` tab, and re-prefixing it gives the tab name back |
| Tasks.Submit | static/tasks.js:168-200 | PUT to `/api/tasks/<id>` exactly when a truthy task is being edited, else POST to `/api/tasks`; an empty deadline goes as null |
| Tasks.EditResubmits | static/tasks.js:24-187 | opening a task and saving it untouched PUTs its own title and description to its own URL; the deadline is null exactly when its first 16 characters are not an accepted value, and is sent back as stored when it is empty or YYYY-MM-DDTHH:MM |
| Tasks.Toggle | static/tasks.js:219-226 | the toggle sends 1 exactly for an incomplete task, else 0 |
| Tasks.CheckboxClick | static/tasks.js:133-147 | a checkbox click flips the checkbox's look and sends the toggle of the task the card was drawn from |
| Tasks.ClicksBeforeRedraw | static/tasks.js:133-147 | before the board is redrawn a second click sends the same request as the first, asking again for the flipped status, while the checkbox shows the old status |
| Tasks.ToggleLabel | static/tasks.js:158-161 | the menu entry says "Завершити" exactly when the toggle would complete the task |
| Tasks.DeleteTask | static/tasks.js:232-236 | a delete is sent exactly when confirmed |
| Tasks.MenuClick | static/tasks.js:247-260 | with no remembered task nothing happens; otherwise the entry dispatches to toggle, editor or confirmed delete, and a delete is only ever sent after a confirmation |
| Accounts.LoadLoggedInUser | app.py:49-59 | there is no user exactly when the session has no `user_id`, else the session's id and names |
| Accounts.AtMostOneMatch | app.py:86-92 | with unique e-mails at most one row matches an e-mail and password |
| Accounts.FirstMatch | app.py:90 | `fetchone()` finds no row exactly when none matches, else the matching row with the least id |
| Accounts.Login | app.py:84-96 | for any users table, only a POST with a matching row redirects, writing the least matching id and its names; a POST missing a field is a 400; any other outcome leaves the session alone |
| Accounts.LoginThenLoad | app.py:50-95 | after a successful login the next request's user is a matching row with the least id, and, if e-mails are unique, the only matching row |
| Accounts.WrongPasswordKeepsSession | app.py:90-96 | a password no row with that e-mail has logs nobody in |
| Accounts.RegexMatch | app.py:116 | `re.match` of a `^…$` pattern of single-character tokens accepts exactly a string with one character per token, each matching its token, plus at most one final newline |
| Accounts.GroupPatternIff | app.py:116 | the pattern accepts exactly two capitals U+0410..U+042F, a hyphen, two digits and at most one final newline |
| Accounts.GroupNameSamples | app.py:116-117 | "КН-12" passes with or without a final newline |
| Accounts.GroupNameLetterRejections | app.py:116-117 | the message's own example "AB-12", Ukrainian-only letters, Ё and lower case fail |
| Accounts.GroupNameLengthRejections | app.py:116 | a third digit and a second final newline fail |
| Accounts.Profile | app.py:105-123 | no user redirects to login without touching the table; a refused name shows the format message and changes nothing; an accepted name sets that user's `group_name` to exactly the input |
| Accounts.ProfileChangesOnlyGroup | app.py:113-121 | the update changes only the group field of the current user's row, and only to an accepted submitted name |
| Accounts.ProfileKeepsEmailsUnique | app.py:119-120 | the update keeps e-mails unique, so login stays well defined |

## Left out

- Not modelled:
  - network I/O (`fetch`), JSON parsing and HTTP status codes other than the ok flag;
  - DOM building, CSS classes, icons, focus, `alert` texts and animations.
- Requests are values, and the server's verdict and `confirm()` answers are inputs.
- Each event handler runs to completion as one step, including its awaited requests. Interleavings at an `await` are not modelled. Two examples: a right-click while `saveEvent` awaits its POST changes the target that `closeModal` then clears, and two quick subgroup clicks can get their replies out of order.
- Polling (`setInterval`, every 10 s in base.js and every 3 s in teams.js) and `setTimeout` are not modelled: each poll is one call of the function.
- The browser Notification API and its permission request are not modelled. Permission is a boolean input.
- `localStorage` is an optional integer. The page writes only numeric ids there, so its `parseInt` is not modelled.
- Timezones and locales are not modelled. This covers `toLocaleString("uk-UA")`, `toLocaleTimeString` and the UTC-to-local conversion of `getHours`/`getDate`.
  - The local fields of a `.local-time` stamp are given as input.
  - Instants and "now" are abstract integers.
- LocalTime.LocalTimeText: takes the local fields as given rather than deriving them from the UTC stamp, because the timezone is outside the model.
- Tasks.Deadline: the card's deadline text is the normalised UTC string it renders, not the locale-formatted text. `new Date` on it is a function parameter.
- Schedule.Label: counts characters as Unicode scalar values. JavaScript's `substring(0, 15)` counts UTF-16 code units, so the label keeps more of titles containing characters outside the Basic Multilingual Plane.
- TeamsFeed.ItemClick: checks only the kind, title and message for an apostrophe; the record's other fields, such as its timestamp, are taken to have none. A chat message's inline link is taken to survive a cut-short attribute; what the attribute's leftover text does to later attributes is not modelled.
- TeamsFeed.DeleteClicked: whether base.js runs on the teams pages depends on templates that are not part of this model, so it is an input.
- Accounts.Login: `fetchone()` on a query without ORDER BY is modelled as the row with the least id, the order of SQLite's table scan; SQL itself leaves the order open. The live table is built from schema.sql, which is not part of this model, so e-mail uniqueness is only a hypothesis of Accounts.AtMostOneMatch, Accounts.LoginThenLoad's last clause and Accounts.ProfileKeepsEmailsUnique.
- Tasks.InputValue: follows the HTML standard's valid local date and time string for the at most 16 characters `slice(0, 16)` leaves; longer accepted forms (seconds, years past 9999) cannot arise from it.
- TeamsFeed.Item: takes `related_id` as an integer. A record whose `related_id` is null would link to `/team/null`, a case the model does not represent.
- Accounts.GroupPatternIff: `\d` is modelled as the ASCII digits only. Python's `re` also lets other Unicode decimal digits through.
- Accounts.Profile: accepts a name with ASCII digits only, following Accounts.GroupPatternIff.
- The JavaScript Date range (±100 000 000 days around 1970) is not modelled: years are unbounded integers.
- Calendar labels are not modelled: the month label's locale text and the capitalised first letter.
- `markAsRead` in base.js is not modelled, with its optimistic restyling and follow-up fetch.
- `acceptInvite` in base.js and `acceptTeamInvite` in teams.js are not modelled: both send one POST, then reload the page or show the server's error.
- The follow-up `loadNotifications` / `fetchNotifications` calls after each action are separate calls of the modelled functions.
- Some handlers only hide an element and are not modelled: the click-anywhere handler that hides both context menus, and the cancel button, close button and overlay of the edit-name and edit-time modals. These leave `editingEventId` and `editingEventDate` as they are. The full form's cancel button, close button and overlay run `closeModal` and are Schedule.CloseModal.
- `register`, `logout`, `index`, `init_db`, the sqlite connection handling and template rendering in app.py are not modelled. The users table is a map from id to row.
- The chat, file-upload, forum and profile-page scripts and the schedule proxy are not part of this model.
- Where the page's code and its written description differ, the model follows the code:
  - a day's entries are not sorted by start time;
  - the chosen subgroup is never stored;
  - a failed schedule fetch empties the event list;
  - labels keep 15 title characters;
  - right-clicking a timetable entry does nothing.
