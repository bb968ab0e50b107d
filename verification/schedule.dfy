/** The schedule page (static/schedule.js): merging the two event sources of
    a schedule reply, bucketing events by date key, the month grid with its
    filler cells, today marker and three-entry cap, event labels, and the
    editing target (`editingEventId` / `editingEventDate`) with the guards
    that stand before each request.

    The page's module-level variables become one immutable `State`; each
    handler is a function from the state (plus the user's input, the answer
    of confirm() and the server's replies) to the next state and the
    requests it sends, in order. */
module Schedule {
  import opened Text
  import opened Calendar

  /** One element of `allEvents`. String fields hold "" when the record
      lacks them; `kind` is the record's `type`. */
  datatype Event = Event(
    id: int,
    date: string,
    eventDate: string,
    title: string,
    subject: string,
    name: string,
    startTime: string,
    timeStart: string,
    endTime: string,
    kind: string,
    isCustom: bool)

  /** The answer to GET /api/schedule/<group>: the university timetable and
      the user's own events, or a failure (network error or unreadable body). */
  datatype ScheduleReply =
    | FetchFailed
    | Fetched(schedule: seq<Event>, customEvents: seq<Event>)

  /** `{...e, is_custom: flag}` on every element, order kept. */
  function Tag(evs: seq<Event>, custom: bool): (r: seq<Event>)
    ensures |r| == |evs|
    ensures forall i :: 0 <= i < |r| ==> r[i] == evs[i].(isCustom := custom)
  {
    seq(|evs|, i requires 0 <= i < |evs| => evs[i].(isCustom := custom))
  }

  /** The timetable entries, marked as not custom, followed by the user's
      events, marked as custom. */
  function Merge(timetable: seq<Event>, custom: seq<Event>): (r: seq<Event>)
    ensures |r| == |timetable| + |custom|
    ensures forall i :: 0 <= i < |timetable| ==> r[i] == timetable[i].(isCustom := false)
    ensures forall j :: 0 <= j < |custom| ==> r[|timetable| + j] == custom[j].(isCustom := true)
  {
    Tag(timetable, false) + Tag(custom, true)
  }

  /** What `allEvents` holds after fetchSchedule: a failed fetch leaves it
      empty rather than keeping the previous events. */
  function EventsAfterFetch(reply: ScheduleReply): (r: seq<Event>)
    ensures reply.FetchFailed? ==> r == []
    ensures reply.Fetched? ==> |r| == |reply.schedule| + |reply.customEvents|
    ensures forall e :: e in r ==> (e.isCustom <==> e in Tag(reply.customEvents, true))
  {
    match reply
    case FetchFailed => []
    case Fetched(timetable, custom) => Merge(timetable, custom)
  }

  /** `e.date || e.event_date`: the key an event is filed under. */
  function EventKey(e: Event): (r: string)
    ensures r == e.date || r == e.eventDate
    ensures r == "" <==> e.date == "" && e.eventDate == ""
    ensures e.date != "" ==> r == e.date
  {
    Or(e.date, e.eventDate)
  }

  /** getEventsForDate: the events filed under `key`, in list order. */
  function EventsForDate(evs: seq<Event>, key: string): (r: seq<Event>)
    ensures |r| <= |evs|
    ensures forall i :: 0 <= i < |r| ==> EventKey(r[i]) == key
    ensures forall e :: e in r <==> e in evs && EventKey(e) == key
    decreases |evs|
  {
    if evs == [] then []
    else
      var rest := EventsForDate(evs[1..], key);
      if EventKey(evs[0]) == key then [evs[0]] + rest else rest
  }

  /** Filtering splits over concatenation, so it keeps the list's order. */
  lemma {:induction false} EventsForDateAppend(a: seq<Event>, b: seq<Event>, key: string)
    ensures EventsForDate(a + b, key) == EventsForDate(a, key) + EventsForDate(b, key)
    decreases |a|
  {
    if a == [] {
      assert a + b == b;
    } else {
      assert (a + b)[1..] == a[1..] + b;
      EventsForDateAppend(a[1..], b, key);
    }
  }

  lemma {:induction false} EventsForDateTag(evs: seq<Event>, custom: bool, key: string)
    ensures EventsForDate(Tag(evs, custom), key) == Tag(EventsForDate(evs, key), custom)
    decreases |evs|
  {
    if evs != [] {
      var t := Tag(evs, custom);
      var head := evs[0].(isCustom := custom);
      assert t[0] == head && EventKey(head) == EventKey(evs[0]);
      assert t[1..] == Tag(evs[1..], custom);
      EventsForDateTag(evs[1..], custom, key);
      var rest := EventsForDate(evs[1..], key);
      if EventKey(evs[0]) == key {
        assert EventsForDate(evs, key) == [evs[0]] + rest;
        TagCons(evs[0], rest, custom);
      } else {
        assert EventsForDate(evs, key) == rest;
      }
    }
  }

  lemma TagCons(e: Event, rest: seq<Event>, custom: bool)
    ensures Tag([e] + rest, custom) == [e.(isCustom := custom)] + Tag(rest, custom)
  {
    assert ([e] + rest)[0] == e;
    forall i | 1 <= i < 1 + |rest|
      ensures Tag([e] + rest, custom)[i] == Tag(rest, custom)[i - 1]
    {
      assert ([e] + rest)[i] == rest[i - 1];
    }
  }

  /** A day cell lists that day's timetable entries first, then the user's
      own events, each group in the order the server sent it (the page does
      not sort by start time). */
  lemma CellOrder(timetable: seq<Event>, custom: seq<Event>, key: string)
    ensures EventsForDate(Merge(timetable, custom), key)
      == Tag(EventsForDate(timetable, key), false) + Tag(EventsForDate(custom, key), true)
  {
    EventsForDateAppend(Tag(timetable, false), Tag(custom, true), key);
    EventsForDateTag(timetable, false, key);
    EventsForDateTag(custom, true, key);
  }

  const DefaultTitle: string := "Подія"

  /** `event.title || event.subject || event.name || "Подія"`. */
  function DisplayTitle(e: Event): (t: string)
    ensures t != ""
    ensures t == e.title || t == e.subject || t == e.name || t == DefaultTitle
    ensures e.title != "" ==> t == e.title
    ensures e.title == "" && e.subject != "" ==> t == e.subject
    ensures e.title == "" && e.subject == "" && e.name != "" ==> t == e.name
    ensures e.title == "" && e.subject == "" && e.name == "" ==> t == DefaultTitle
  {
    Or(e.title, Or(e.subject, Or(e.name, DefaultTitle)))
  }

  /** `event.start_time || event.time_start || ""`. */
  function StartText(e: Event): string
  {
    Or(e.startTime, e.timeStart)
  }

  /** createEventElement's text: at most 15 characters of the title, then a
      space and the start time when there is one. */
  function Label(e: Event): (r: string)
    ensures var t := Take(DisplayTitle(e), 15);
      |t| <= 15 && 1 <= |t| <= |r| && r[..|t|] == t && t == DisplayTitle(e)[..|t|]
    ensures var t := Take(DisplayTitle(e), 15);
      StartText(e) == "" ==> r == t
    ensures var t := Take(DisplayTitle(e), 15);
      StartText(e) != "" ==> |r| == |t| + 1 + |StartText(e)| && r[|t|] == ' ' && r[|t| + 1..] == StartText(e)
  {
    var t := Take(DisplayTitle(e), 15);
    var s := StartText(e);
    if s != "" then t + " " + s else t
  }

  datatype Entry = Entry(event: Event, text: string)

  /** A grid cell: a blank filler before day 1, or a day with its number,
      its date key, the "today" mark, the entries shown and the "+N" counter. */
  datatype Cell =
    | Filler
    | Day(number: int, key: string, isToday: bool, entries: seq<Entry>, more: Option<nat>)

  const EntryCap: nat := 3

  function Entries(evs: seq<Event>): (r: seq<Entry>)
    ensures |r| == |evs|
    ensures forall i :: 0 <= i < |r| ==> r[i] == Entry(evs[i], Label(evs[i]))
  {
    seq(|evs|, i requires 0 <= i < |evs| => Entry(evs[i], Label(evs[i])))
  }

  /** The cell of day `day` of (y, m): it shows the first three of the
      day's events and counts the rest in "+N". */
  function DayCell(y: int, m: int, day: int, todayKey: string, evs: seq<Event>): (c: Cell)
    requires Valid(Date(y, m, day))
    ensures c.Day? && c.number == day && c.key == FormatDate(Date(y, m, day))
    ensures c.isToday <==> c.key == todayKey
    ensures var dayEvents := EventsForDate(evs, c.key);
      && |c.entries| == (if |dayEvents| < EntryCap then |dayEvents| else EntryCap)
      && (forall i :: 0 <= i < |c.entries| ==> c.entries[i] == Entry(dayEvents[i], Label(dayEvents[i])))
      && (c.more.Some? <==> |dayEvents| > EntryCap)
      && (c.more.Some? ==> c.more.value >= 1 && |c.entries| + c.more.value == |dayEvents|)
  {
    var key := FormatDate(Date(y, m, day));
    var dayEvents := EventsForDate(evs, key);
    var shown := if |dayEvents| <= EntryCap then dayEvents else dayEvents[..EntryCap];
    Day(day, key, key == todayKey, Entries(shown),
        if |dayEvents| > EntryCap then Some(|dayEvents| - EntryCap) else None)
  }

  /** The year the grid is built for: renderCalendar passes the shown year to
      `new Date(year, month, ...)`, which reads 0..99 as 1900..1999. */
  function GridYear(view: Date): int
  {
    ConstructedYear(view.year)
  }

  function GridOffset(view: Date): (n: int)
    requires Valid(view)
    ensures 0 <= n <= 6
  {
    FirstWeekdayOffset(GridYear(view), view.month)
  }

  function GridDays(view: Date): (n: int)
    requires Valid(view)
    ensures 28 <= n <= 31
  {
    DaysInMonth(GridYear(view), view.month)
  }

  /** renderCalendar: the Monday-first weekday of day 1 many fillers, then
      one cell per day of the month in ascending order, no trailing fillers. */
  function Grid(view: Date, today: Date, evs: seq<Event>): (g: seq<Cell>)
    requires Valid(view) && Valid(today)
    ensures |g| == GridOffset(view) + GridDays(view)
  {
    MonthGrid(GridYear(view), view.month, GridOffset(view), FormatDate(today), evs)
  }

  /** The grid's layout: fillers first, then day 1, 2, ... in ascending
      order, each cell built for its own date. */
  lemma GridLayout(view: Date, today: Date, evs: seq<Event>)
    requires Valid(view) && Valid(today)
    ensures var g := Grid(view, today, evs);
      && (forall i :: 0 <= i < GridOffset(view) ==> g[i] == Filler)
      && (forall i :: GridOffset(view) <= i < |g| ==>
            g[i] == DayCell(GridYear(view), view.month, i - GridOffset(view) + 1, FormatDate(today), evs))
  {
    var off := GridOffset(view);
    assert Grid(view, today, evs) == MonthGrid(GridYear(view), view.month, off, FormatDate(today), evs);
    MonthGridLayout(GridYear(view), view.month, off, FormatDate(today), evs);
  }

  /** GridLayout for the grid of (y, m) with `off` leading fillers. */
  lemma MonthGridLayout(y: int, m: int, off: nat, todayKey: string, evs: seq<Event>)
    requires 1 <= m <= 12
    ensures var g := MonthGrid(y, m, off, todayKey, evs);
      && (forall i :: 0 <= i < off ==> g[i] == Filler)
      && (forall i :: off <= i < |g| ==> g[i] == DayCell(y, m, i - off + 1, todayKey, evs))
  {
    var g := MonthGrid(y, m, off, todayKey, evs);
    forall i | 0 <= i < |g|
      ensures i < off ==> g[i] == Filler
      ensures i >= off ==> g[i] == DayCell(y, m, i - off + 1, todayKey, evs)
    {
      assert g[i] == CellAt(y, m, off, todayKey, evs, i);
    }
  }

  /** The grid of (y, m) with `off` leading fillers. */
  function MonthGrid(y: int, m: int, off: nat, todayKey: string, evs: seq<Event>): (g: seq<Cell>)
    requires 1 <= m <= 12
    ensures |g| == off + DaysInMonth(y, m)
    ensures forall i :: 0 <= i < |g| ==> g[i] == CellAt(y, m, off, todayKey, evs, i)
  {
    seq(off + DaysInMonth(y, m), i requires 0 <= i < off + DaysInMonth(y, m) => CellAt(y, m, off, todayKey, evs, i))
  }

  /** Cell `i` of that grid: a filler before day 1, else the cell of day
      i - off + 1. */
  function CellAt(y: int, m: int, off: nat, todayKey: string, evs: seq<Event>, i: nat): (c: Cell)
    requires 1 <= m <= 12 && i < off + DaysInMonth(y, m)
    ensures i < off ==> c == Filler
    ensures i >= off ==> c == DayCell(y, m, i - off + 1, todayKey, evs)
  {
    if i < off then Filler else DayCell(y, m, i - off + 1, todayKey, evs)
  }

  predicate IsTodayCell(c: Cell)
  {
    c.Day? && c.isToday
  }

  /** Some cell carries "today" exactly when today lies in the month built,
      and then only one does: the cell of today's day of month. */
  lemma TodayMarker(view: Date, today: Date, evs: seq<Event>)
    requires Valid(view) && Valid(today)
    ensures var g := Grid(view, today, evs);
      (exists i :: 0 <= i < |g| && IsTodayCell(g[i]))
        <==> (today.year == GridYear(view) && today.month == view.month)
    ensures var g := Grid(view, today, evs);
      forall i :: 0 <= i < |g| && IsTodayCell(g[i]) ==>
        i == GridOffset(view) + today.day - 1
  {
    assert Grid(view, today, evs) == MonthGrid(GridYear(view), view.month, GridOffset(view), FormatDate(today), evs);
    MonthGridToday(GridYear(view), view.month, GridOffset(view), today, evs);
  }

  /** TodayMarker for the grid of (y, m) with `off` leading fillers. */
  lemma MonthGridToday(y: int, m: int, off: nat, today: Date, evs: seq<Event>)
    requires 1 <= m <= 12 && Valid(today)
    ensures var g := MonthGrid(y, m, off, FormatDate(today), evs);
      (exists i :: 0 <= i < |g| && IsTodayCell(g[i])) <==> (today.year == y && today.month == m)
    ensures var g := MonthGrid(y, m, off, FormatDate(today), evs);
      forall i :: 0 <= i < |g| && IsTodayCell(g[i]) ==> i == off + today.day - 1
  {
    var key := FormatDate(today);
    var g := MonthGrid(y, m, off, key, evs);
    forall i | 0 <= i < |g| && IsTodayCell(g[i])
      ensures today.year == y && today.month == m && i == off + today.day - 1
    {
      CellAtToday(y, m, off, today, evs, i);
    }
    if today.year == y && today.month == m {
      var i := off + today.day - 1;
      CellAtToday(y, m, off, today, evs, i);
      assert IsTodayCell(g[i]);
    }
  }

  /** Cell `i` carries "today" exactly when it is the cell of today's date. */
  lemma CellAtToday(y: int, m: int, off: nat, today: Date, evs: seq<Event>, i: nat)
    requires 1 <= m <= 12 && Valid(today) && i < off + DaysInMonth(y, m)
    ensures IsTodayCell(CellAt(y, m, off, FormatDate(today), evs, i)) <==>
      (i >= off && Date(y, m, i - off + 1) == today)
  {
    if i >= off {
      TodayCellIff(y, m, i - off + 1, today, evs);
    }
  }

  lemma TodayCellIff(y: int, m: int, day: int, today: Date, evs: seq<Event>)
    requires Valid(Date(y, m, day)) && Valid(today)
    ensures DayCell(y, m, day, FormatDate(today), evs).isToday <==> Date(y, m, day) == today
  {
    FormatDateInjective(Date(y, m, day), today);
  }

  /** Each day cell shows exactly the events filed under its key. */
  lemma CellEvents(view: Date, today: Date, evs: seq<Event>, i: int)
    requires Valid(view) && Valid(today)
    requires GridOffset(view) <= i < |Grid(view, today, evs)|
    ensures var c := Grid(view, today, evs)[i];
      forall k :: 0 <= k < |c.entries| ==>
        c.entries[k].event in evs && EventKey(c.entries[k].event) == c.key
  {
    var c := Grid(view, today, evs)[i];
    var dayEvents := EventsForDate(evs, c.key);
    forall k | 0 <= k < |c.entries|
      ensures c.entries[k].event in evs && EventKey(c.entries[k].event) == c.key
    {
      assert c.entries[k].event == dayEvents[k];
      assert dayEvents[k] in dayEvents;
    }
  }

  // ---------------------------------------------------------------------
  // The page state and its handlers

  /** The page's variables: the shown date (`currentDate`), the subgroup,
      `allEvents`, and the editing target. */
  datatype State = State(
    view: Date,
    subgroup: int,
    events: seq<Event>,
    editId: Option<int>,
    editDate: Option<string>)

  /** The body of POST /api/event; `id` None is sent as null (create). */
  datatype Payload = Payload(
    id: Option<int>,
    group: string,
    title: string,
    kind: string,
    date: Option<string>,
    startTime: string,
    endTime: string)

  datatype Request =
    | GetSchedule(group: string, subgroup: int)
    | PostEvent(payload: Payload)
    | DeleteEvent(id: int)

  /** A handler's outcome: the next state and the requests sent, in order. */
  datatype Step = Step(state: State, requests: seq<Request>)

  /** fetchSchedule with the page's group and the state's subgroup. */
  function Refetch(st: State, group: string, reply: ScheduleReply): (r: Step)
    ensures r.state == st.(events := EventsAfterFetch(reply))
    ensures r.requests == [GetSchedule(group, st.subgroup)]
  {
    Step(st.(events := EventsAfterFetch(reply)), [GetSchedule(group, st.subgroup)])
  }

  /** initCalendar: nothing happens without a group; otherwise subgroup 1 is
      fetched for the current date. */
  function Start(group: string, now: Date, reply: ScheduleReply): (r: Step)
    ensures group == "" ==> r.requests == [] && r.state.events == []
    ensures group != "" ==> r.requests == [GetSchedule(group, 1)] && r.state.events == EventsAfterFetch(reply)
    ensures r.state.view == now && r.state.subgroup == 1
    ensures r.state.editId == None && r.state.editDate == None
  {
    var initial := State(now, 1, [], None, None);
    if group == "" then Step(initial, []) else Refetch(initial, group, reply)
  }

  /** A subgroup button: the choice is kept only in the page and the
      schedule is fetched again, even when the subgroup did not change;
      nothing is sent to store the choice. */
  function ClickSubgroup(st: State, group: string, subgroup: int, reply: ScheduleReply): (r: Step)
    ensures r.requests == [GetSchedule(group, subgroup)]
    ensures r.state == st.(subgroup := subgroup, events := EventsAfterFetch(reply))
  {
    Refetch(st.(subgroup := subgroup), group, reply)
  }

  /** Right-click on an event entry: only the user's own events open the
      event menu and become the editing target. */
  function EventMenu(st: State, e: Event, dateKey: string): (r: State)
    ensures e.isCustom ==> r.editId == Some(e.id) && r.editDate == Some(dateKey)
    ensures !e.isCustom ==> r == st
    ensures r.view == st.view && r.events == st.events && r.subgroup == st.subgroup
  {
    if e.isCustom then st.(editId := Some(e.id), editDate := Some(dateKey)) else st
  }

  /** Right-click on a day cell outside its entries: no event, that day. */
  function EmptyMenu(st: State, dateKey: string): (r: State)
    ensures r.editId == None && r.editDate == Some(dateKey)
    ensures r.view == st.view && r.events == st.events && r.subgroup == st.subgroup
  {
    st.(editId := None, editDate := Some(dateKey))
  }

  /** closeModal forgets the editing target. */
  function CloseModal(st: State): (r: State)
    ensures r.editId == None && r.editDate == None
    ensures r.view == st.view && r.events == st.events && r.subgroup == st.subgroup
  {
    st.(editId := None, editDate := None)
  }

  datatype FormMode = Create | Edit

  /** The fields of the full event form. */
  datatype EventForm = EventForm(mode: FormMode, title: string, date: string, kind: string, startTime: string, endTime: string)

  const OtherKind: string := "other"

  /** openFullModal(dateStr, eventData): edit mode (and an editing id) only
      for a custom event, otherwise an empty form and no editing id. A null
      date string reaches the date input as "". The page itself only calls
      it without `eventData` (the "add event" item), so the edit branch is
      reachable only from other callers. */
  function OpenFullModal(st: State, dateKey: Option<string>, data: Option<Event>): (r: (State, EventForm))
    ensures (data.Some? && data.value.isCustom) ==> r.0.editId == Some(data.value.id) && r.1.mode == Edit
    ensures !(data.Some? && data.value.isCustom) ==>
      r.0.editId == None && r.1 == EventForm(Create, "", if dateKey.Some? then dateKey.value else "", OtherKind, "", "")
    ensures r.0.editDate == dateKey
    ensures r.0.view == st.view && r.0.events == st.events && r.0.subgroup == st.subgroup
  {
    var dateText := if dateKey.Some? then dateKey.value else "";
    if data.Some? && data.value.isCustom then
      var e := data.value;
      (st.(editId := Some(e.id), editDate := dateKey),
       EventForm(Edit, e.title, Or(e.date, dateText), Or(e.kind, OtherKind), e.startTime, e.endTime))
    else
      (st.(editId := None, editDate := dateKey), EventForm(Create, "", dateText, OtherKind, "", ""))
  }

  /** The "add event" item of the empty-cell menu. */
  function AddEventClicked(st: State): (r: (State, EventForm))
    ensures r.0.editId == None && r.0.editDate == st.editDate
    ensures r.0.view == st.view && r.0.events == st.events && r.0.subgroup == st.subgroup
    ensures r.1 == EventForm(Create, "", if st.editDate.Some? then st.editDate.value else "", OtherKind, "", "")
  {
    OpenFullModal(st, st.editDate, None)
  }

  /** The index of the first event with id `id` at or after `k`. */
  function FindIndexFrom(evs: seq<Event>, id: int, k: nat): (r: Option<nat>)
    requires k <= |evs|
    ensures r.Some? ==>
      && k <= r.value < |evs| && evs[r.value].id == id
      && forall j :: k <= j < r.value ==> evs[j].id != id
    ensures r.None? ==> forall j :: k <= j < |evs| ==> evs[j].id != id
    decreases |evs| - k
  {
    if k == |evs| then None
    else if evs[k].id == id then Some(k)
    else FindIndexFrom(evs, id, k + 1)
  }

  /** `allEvents.find((e) => e.id == editingEventId)`: the first event with
      that id, if any. */
  function FindEvent(evs: seq<Event>, id: int): (r: Option<Event>)
    ensures r.None? <==> forall i :: 0 <= i < |evs| ==> evs[i].id != id
    ensures r.Some? ==>
      && r.value.id == id
      && exists k :: 0 <= k < |evs| && evs[k] == r.value && forall j :: 0 <= j < k ==> evs[j].id != id
  {
    match FindIndexFrom(evs, id, 0)
    case None => None
    case Some(k) => Some(evs[k])
  }

  /** openEditNameModal's prefill: the target's title, when there is a target. */
  function OpenEditName(st: State): (r: Option<string>)
    ensures r.Some? <==> Truthy(st.editId) && FindEvent(st.events, st.editId.value).Some?
    ensures r.Some? ==> r.value == FindEvent(st.events, st.editId.value).value.title
  {
    if !Truthy(st.editId) then None
    else match FindEvent(st.events, st.editId.value)
      case None => None
      case Some(e) => Some(e.title)
  }

  /** openEditTimeModal's prefill: the target's start and end times. */
  function OpenEditTime(st: State): (r: Option<(string, string)>)
    ensures r.Some? <==> Truthy(st.editId) && FindEvent(st.events, st.editId.value).Some?
    ensures r.Some? ==> var e := FindEvent(st.events, st.editId.value).value;
      r.value == (e.startTime, e.endTime)
  {
    if !Truthy(st.editId) then None
    else match FindEvent(st.events, st.editId.value)
      case None => None
      case Some(e) => Some((e.startTime, e.endTime))
  }

  /** `event.date || editingEventDate`. */
  function DateOr(date: string, fallback: Option<string>): (r: Option<string>)
    ensures date != "" ==> r == Some(date)
    ensures date == "" ==> r == fallback
  {
    if date != "" then Some(date) else fallback
  }

  /** The event as stored, written as a POST /api/event body. */
  function StoredPayload(e: Event, group: string, fallbackDate: Option<string>): Payload
  {
    Payload(Some(e.id), group, e.title, e.kind, DateOr(e.date, fallbackDate), e.startTime, e.endTime)
  }

  /** After a successful write the page fetches the schedule again; after a
      failed one (an error reply or a network error) nothing more happens. */
  function AfterWrite(st: State, closed: State, group: string, sent: Request, ok: bool, reply: ScheduleReply): (r: Step)
    ensures ok ==>
      && r.state == closed.(events := EventsAfterFetch(reply))
      && r.requests == [sent, GetSchedule(group, closed.subgroup)]
    ensures !ok ==> r == Step(st, [sent])
  {
    if ok then
      var again := Refetch(closed, group, reply);
      Step(again.state, [sent] + again.requests)
    else Step(st, [sent])
  }

  /** saveEvent: a title that trims to nothing sends nothing; otherwise the
      form is posted with the editing id (null creates an event) and a
      success closes the modal and refetches. */
  function SaveEvent(st: State, group: string, form: EventForm, ok: bool, reply: ScheduleReply): (r: Step)
    ensures r.requests == [] <==> AllSpace(form.title)
    ensures AllSpace(form.title) ==> r.state == st
    ensures !AllSpace(form.title) ==>
      r.requests[0] == PostEvent(Payload(st.editId, group, form.title, form.kind, Some(form.date), form.startTime, form.endTime))
    ensures !AllSpace(form.title) && ok ==>
      && r.state.editId == None && r.state.editDate == None && r.state.events == EventsAfterFetch(reply)
      && r.state.view == st.view && r.state.subgroup == st.subgroup
      && r.requests == [r.requests[0], GetSchedule(group, st.subgroup)]
    ensures !AllSpace(form.title) && !ok ==> r.state == st && |r.requests| == 1
    ensures r.state.editId == st.editId || r.state.editId.None?
  {
    if Trim(form.title) == "" then Step(st, [])
    else
      var p := Payload(st.editId, group, form.title, form.kind, Some(form.date), form.startTime, form.endTime);
      AfterWrite(st, CloseModal(st), group, PostEvent(p), ok, reply)
  }

  /** saveEventName: needs a target, a non-blank name and the target among
      the loaded events; the body is the stored event with the new title. */
  function SaveEventName(st: State, group: string, input: string, ok: bool, reply: ScheduleReply): (r: Step)
    ensures r.requests != [] <==>
      Truthy(st.editId) && !AllSpace(input) && FindEvent(st.events, st.editId.value).Some?
    ensures r.requests == [] ==> r.state == st
    ensures r.requests != [] ==>
      var e := FindEvent(st.events, st.editId.value).value;
      r.requests[0] == PostEvent(StoredPayload(e, group, st.editDate).(title := input))
    ensures r.requests != [] && ok ==>
      r.state == st.(events := EventsAfterFetch(reply)) && r.requests == [r.requests[0], GetSchedule(group, st.subgroup)]
    ensures r.requests != [] && !ok ==> r.state == st && |r.requests| == 1
    ensures r.state.editId == st.editId
  {
    if !Truthy(st.editId) || Trim(input) == "" then Step(st, [])
    else match FindEvent(st.events, st.editId.value)
      case None => Step(st, [])
      case Some(e) =>
        var p := Payload(st.editId, group, input, e.kind, DateOr(e.date, st.editDate), e.startTime, e.endTime);
        AfterWrite(st, st, group, PostEvent(p), ok, reply)
  }

  /** saveEventTime: needs a target among the loaded events; the body is the
      stored event with the new start and end times. */
  function SaveEventTime(st: State, group: string, start: string, end: string, ok: bool, reply: ScheduleReply): (r: Step)
    ensures r.requests != [] <==> Truthy(st.editId) && FindEvent(st.events, st.editId.value).Some?
    ensures r.requests == [] ==> r.state == st
    ensures r.requests != [] ==>
      var e := FindEvent(st.events, st.editId.value).value;
      r.requests[0] == PostEvent(StoredPayload(e, group, st.editDate).(startTime := start, endTime := end))
    ensures r.requests != [] && ok ==>
      r.state == st.(events := EventsAfterFetch(reply)) && r.requests == [r.requests[0], GetSchedule(group, st.subgroup)]
    ensures r.requests != [] && !ok ==> r.state == st && |r.requests| == 1
    ensures r.state.editId == st.editId
  {
    if !Truthy(st.editId) then Step(st, [])
    else match FindEvent(st.events, st.editId.value)
      case None => Step(st, [])
      case Some(e) =>
        var p := Payload(st.editId, group, e.title, e.kind, DateOr(e.date, st.editDate), start, end);
        AfterWrite(st, st, group, PostEvent(p), ok, reply)
  }

  /** deleteEvent: needs a target and an accepted confirm(); the target
      stays set afterwards. */
  function Delete(st: State, group: string, confirmed: bool, ok: bool, reply: ScheduleReply): (r: Step)
    ensures r.requests != [] <==> Truthy(st.editId) && confirmed
    ensures r.requests == [] ==> r.state == st
    ensures r.requests != [] ==> r.requests[0] == DeleteEvent(st.editId.value)
    ensures r.requests != [] && ok ==>
      r.state == st.(events := EventsAfterFetch(reply)) && r.requests == [r.requests[0], GetSchedule(group, st.subgroup)]
    ensures r.requests != [] && !ok ==> r.state == st && |r.requests| == 1
    ensures r.state.editId == st.editId
  {
    if !Truthy(st.editId) || !confirmed then Step(st, [])
    else AfterWrite(st, st, group, DeleteEvent(st.editId.value), ok, reply)
  }

  /** The "today" button shows the current date's month. */
  function ShowToday(st: State, now: Date): (r: State)
    ensures r.view == now
    ensures r.events == st.events && r.subgroup == st.subgroup && r.editId == st.editId && r.editDate == st.editDate
  {
    st.(view := now)
  }

  /** The previous/next month buttons: setMonth(getMonth() -/+ 1) on the
      shown date, which keeps its day of month. */
  function PrevMonth(st: State): (r: State)
    requires Valid(st.view)
    ensures Valid(r.view) && r.view == ShiftMonth(st.view, -1)
    ensures r.events == st.events && r.subgroup == st.subgroup && r.editId == st.editId && r.editDate == st.editDate
  {
    st.(view := ShiftMonth(st.view, -1))
  }

  function NextMonth(st: State): (r: State)
    requires Valid(st.view)
    ensures Valid(r.view) && r.view == ShiftMonth(st.view, 1)
    ensures r.events == st.events && r.subgroup == st.subgroup && r.editId == st.editId && r.editDate == st.editDate
  {
    st.(view := ShiftMonth(st.view, 1))
  }

  // ---------------------------------------------------------------------
  // Properties across handlers

  /** The name edit changes nothing of the stored event but its title, and
      the time edit nothing but its two times. */
  lemma EditsChangeOneThing(st: State, group: string, input: string, start: string, end: string, ok: bool, reply: ScheduleReply)
    requires Truthy(st.editId) && FindEvent(st.events, st.editId.value).Some?
    ensures var e := FindEvent(st.events, st.editId.value).value;
      var stored := StoredPayload(e, group, st.editDate);
      var named := SaveEventName(st, group, input, ok, reply);
      !AllSpace(input) ==>
        named.requests[0].PostEvent? && named.requests[0].payload.(title := stored.title) == stored
        && named.requests[0].payload.title == input
    ensures var e := FindEvent(st.events, st.editId.value).value;
      var stored := StoredPayload(e, group, st.editDate);
      var timed := SaveEventTime(st, group, start, end, ok, reply);
      timed.requests[0].PostEvent?
        && timed.requests[0].payload.(startTime := stored.startTime, endTime := stored.endTime) == stored
        && timed.requests[0].payload.startTime == start && timed.requests[0].payload.endTime == end
  {
  }

  /** An event without its own date is written under the date of the cell
      it was opened from. */
  lemma EditsFallBackToCellDate(st: State, group: string, input: string, ok: bool, reply: ScheduleReply)
    requires Truthy(st.editId) && !AllSpace(input)
    requires FindEvent(st.events, st.editId.value).Some?
    requires FindEvent(st.events, st.editId.value).value.date == ""
    ensures SaveEventName(st, group, input, ok, reply).requests[0].payload.date == st.editDate
    ensures SaveEventTime(st, group, input, input, ok, reply).requests[0].payload.date == st.editDate
  {
  }

  /** Opening the full form from an event and saving it updates that event
      when it is custom and creates a new one otherwise. No handler of the
      page opens the form with an event, so this describes the function's
      own contract for other callers. */
  lemma FullFormCreatesOrUpdates(st: State, group: string, dateKey: Option<string>, e: Event, title: string, ok: bool, reply: ScheduleReply)
    requires !AllSpace(title)
    ensures var modal := OpenFullModal(st, dateKey, Some(e));
      var saved := SaveEvent(modal.0, group, modal.1.(title := title), ok, reply);
      saved.requests[0].PostEvent?
      && (saved.requests[0].payload.id.Some? <==> e.isCustom)
      && (e.isCustom ==> saved.requests[0].payload.id == Some(e.id))
  {
  }

  /** Right-clicking an empty part of a day, choosing "add event" and saving
      a titled form creates an event on that day. */
  lemma AddFromEmptyCell(st: State, group: string, dateKey: string, title: string, ok: bool, reply: ScheduleReply)
    requires !AllSpace(title)
    ensures var menu := EmptyMenu(st, dateKey);
      var modal := AddEventClicked(menu);
      var saved := SaveEvent(modal.0, group, modal.1.(title := title), ok, reply);
      saved.requests[0] == PostEvent(Payload(None, group, title, OtherKind, Some(dateKey), "", ""))
  {
  }

  /** The target is no event or one of `ids`. */
  predicate TargetIn(st: State, ids: set<int>)
  {
    st.editId.None? || st.editId.value in ids
  }

  /** Only the menus and the full form set a target, and only to a custom
      event's id: if `ids` holds the custom events the user can reach, the
      target stays within them. TargetKeptByRequests and
      TargetKeptByNavigation cover the other handlers. */
  lemma TargetOnlyCustomEvents(st: State, ids: set<int>, e: Event, dateKey: string)
    requires TargetIn(st, ids)
    requires e.isCustom ==> e.id in ids
    ensures TargetIn(EventMenu(st, e, dateKey), ids) && TargetIn(EmptyMenu(st, dateKey), ids)
    ensures TargetIn(CloseModal(st), ids) && TargetIn(AddEventClicked(st).0, ids)
    ensures TargetIn(OpenFullModal(st, Some(dateKey), Some(e)).0, ids)
  {
  }

  /** The handlers that send requests keep the target or clear it. It need
      not stay loaded: a successful delete refetches without clearing it. */
  lemma TargetKeptByRequests(st: State, ids: set<int>, group: string, form: EventForm, input: string,
                             start: string, end: string, subgroup: int, confirmed: bool, ok: bool, reply: ScheduleReply)
    requires TargetIn(st, ids)
    ensures TargetIn(ClickSubgroup(st, group, subgroup, reply).state, ids)
    ensures TargetIn(SaveEvent(st, group, form, ok, reply).state, ids)
    ensures TargetIn(SaveEventName(st, group, input, ok, reply).state, ids)
    ensures TargetIn(SaveEventTime(st, group, start, end, ok, reply).state, ids)
    ensures TargetIn(Delete(st, group, confirmed, ok, reply).state, ids)
  {
  }

  /** Moving between months keeps the target. */
  lemma TargetKeptByNavigation(st: State, ids: set<int>, now: Date)
    requires TargetIn(st, ids)
    ensures TargetIn(ShowToday(st, now), ids)
    ensures Valid(st.view) ==> TargetIn(PrevMonth(st), ids) && TargetIn(NextMonth(st), ids)
  {
  }

  /** The lookup does not check where an event came from: when a timetable
      entry has the target's id, it is found first, since the merge puts
      the timetable first, and the inline edits post that entry's fields. */
  lemma TimetableIdShadowsCustom(timetable: seq<Event>, custom: seq<Event>, k: nat, id: int)
    requires k < |timetable| && timetable[k].id == id
    ensures FindEvent(Merge(timetable, custom), id).Some?
    ensures !FindEvent(Merge(timetable, custom), id).value.isCustom
  {
    var evs := Merge(timetable, custom);
    assert evs[k].id == id;
    var found := FindEvent(evs, id).value;
    var i :| 0 <= i < |evs| && evs[i] == found && forall j :: 0 <= j < i ==> evs[j].id != id;
    assert i <= k;
  }

  /** A delete sends nothing when the confirmation is declined. */
  lemma DeclinedDeleteSendsNothing(st: State, group: string, ok: bool, reply: ScheduleReply)
    ensures Delete(st, group, false, ok, reply) == Step(st, [])
  {
  }
}
