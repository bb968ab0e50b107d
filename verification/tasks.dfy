/** The task board (static/tasks.js): which column a card goes to, the
    deadline text and urgency mark, the editor's prefill, the request the
    editor's submit builds, the completion toggle, deletion behind a
    confirmation, and the context menu that dispatches between them. */
module Tasks {
  import opened Text
  import Calendar

  /** A task as GET /api/tasks returns it. `deadline` is "" when null;
      `teamId` is the nullable `team_id`. */
  datatype Task = Task(
    id: int,
    title: string,
    description: string,
    deadline: string,
    isCompleted: bool,
    teamId: Option<int>)

  const CompletedPrefix: string := "completed-"
  const ActivePrefix: string := "active-"
  const TeamPrefix: string := "team-"
  const PersonalList: string := "personal"

  /** The status half of a column id. */
  function StatusPrefix(completed: bool): (r: string)
    ensures r == CompletedPrefix || r == ActivePrefix
  {
    if completed then CompletedPrefix else ActivePrefix
  }

  /** The context half: `team-<team_id>` for a truthy team id, else
      "personal". */
  function ContextName(teamId: Option<int>): (r: string)
    ensures Truthy(teamId) ==> StartsWith(r, TeamPrefix) && r[|TeamPrefix|..] == IntToString(teamId.value)
    ensures !Truthy(teamId) ==> r == PersonalList
  {
    if Truthy(teamId) then TeamPrefix + IntToString(teamId.value) else PersonalList
  }

  /** fetchAndRenderTasks: the id of the column a task's card is appended to. */
  function ListId(t: Task): (r: string)
    ensures StartsWith(r, StatusPrefix(t.isCompleted))
    ensures r[|StatusPrefix(t.isCompleted)|..] == ContextName(t.teamId)
  {
    assert (StatusPrefix(t.isCompleted) + ContextName(t.teamId))[|StatusPrefix(t.isCompleted)|..] == ContextName(t.teamId);
    StatusPrefix(t.isCompleted) + ContextName(t.teamId)
  }

  /** The team a column belongs to: the truthy team id, or None for the
      personal columns. */
  function Context(teamId: Option<int>): Option<int>
  {
    if Truthy(teamId) then teamId else None
  }

  /** Reads the context half back: None for the personal columns, the id
      for a team column. */
  function ParseContext(rest: string): Option<Option<int>>
  {
    if rest == PersonalList then Some(None)
    else if StartsWith(rest, TeamPrefix) then
      match ParseInt(rest[|TeamPrefix|..])
      case Some(id) => if id != 0 then Some(Some(id)) else None
      case None => None
    else None
  }

  /** Reads a column id back into (completed, team). */
  function ParseListId(s: string): Option<(bool, Option<int>)>
  {
    var completed := StartsWith(s, CompletedPrefix);
    if !completed && !StartsWith(s, ActivePrefix) then None
    else
      var rest := if completed then s[|CompletedPrefix|..] else s[|ActivePrefix|..];
      match ParseContext(rest)
      case Some(team) => Some((completed, team))
      case None => None
  }

  lemma ContextRoundTrip(completed: bool, teamId: Option<int>)
    ensures var s := StatusPrefix(completed) + ContextName(teamId);
      ParseListId(s) == Some((completed, Context(teamId)))
  {
    var p := StatusPrefix(completed);
    var c := ContextName(teamId);
    var s := p + c;
    assert s[..|p|] == p && s[|p|..] == c;
    if !completed {
      assert s[..|CompletedPrefix|] != CompletedPrefix by {
        assert s[0] == 'a';
      }
    }
    ContextNameRoundTrip(teamId);
  }

  /** The context half alone reads back to the column's team. */
  lemma ContextNameRoundTrip(teamId: Option<int>)
    ensures ParseContext(ContextName(teamId)) == Some(Context(teamId))
  {
    var c := ContextName(teamId);
    if Truthy(teamId) {
      ParseIntOfIntToString(teamId.value);
      assert c != PersonalList by { assert c[0] == 't'; }
    } else {
      assert !StartsWith(c, TeamPrefix) by { assert c[0] == 'p'; }
    }
  }

  /** The column id records exactly the status and the team: reading it
      back recovers both. */
  lemma ListIdRoundTrip(t: Task)
    ensures ParseListId(ListId(t)) == Some((t.isCompleted, Context(t.teamId)))
  {
    ContextRoundTrip(t.isCompleted, t.teamId);
  }

  /** Two cards share a column iff they agree on status and team. */
  lemma SameColumnIff(a: Task, b: Task)
    ensures ListId(a) == ListId(b) <==> a.isCompleted == b.isCompleted && Context(a.teamId) == Context(b.teamId)
  {
    ListIdRoundTrip(a);
    ListIdRoundTrip(b);
  }

  /** The cards of one column, in reply order. A task whose column is not on
      the page is appended nowhere. */
  function Column(tasks: seq<Task>, listId: string): (r: seq<Task>)
    ensures forall t :: t in r <==> t in tasks && ListId(t) == listId
    ensures |r| <= |tasks|
    decreases |tasks|
  {
    if tasks == [] then []
    else
      var rest := Column(tasks[1..], listId);
      if ListId(tasks[0]) == listId then [tasks[0]] + rest else rest
  }

  /** Columns keep the reply order: a column of a concatenation is the
      concatenation of the columns. */
  lemma {:induction false} ColumnAppend(a: seq<Task>, b: seq<Task>, listId: string)
    ensures Column(a + b, listId) == Column(a, listId) + Column(b, listId)
    decreases |a|
  {
    if a == [] {
      assert a + b == b;
    } else {
      assert (a + b)[1..] == a[1..] + b;
      ColumnAppend(a[1..], b, listId);
    }
  }

  /** A failed fetch throws before the columns are cleared, so the board keeps
      the tasks it showed; a successful one replaces them. */
  function BoardAfterFetch(shown: seq<Task>, reply: Option<seq<Task>>): (r: seq<Task>)
    ensures reply.None? ==> r == shown
    ensures reply.Some? ==> r == reply.value
  {
    if reply.Some? then reply.value else shown
  }

  /** What each column shows after a fetch: on failure the cards it showed
      before, on success exactly the reply's tasks with that column id; and a
      task of the reply sits in its column after the column's cards of the
      tasks before it and before those of the tasks after it. */
  lemma {:induction false} BoardColumns(shown: seq<Task>, reply: Option<seq<Task>>, listId: string)
    ensures reply.None? ==> Column(BoardAfterFetch(shown, reply), listId) == Column(shown, listId)
    ensures forall t :: t in Column(BoardAfterFetch(shown, reply), listId) <==>
      t in (if reply.Some? then reply.value else shown) && ListId(t) == listId
    ensures reply.Some? ==> forall i :: 0 <= i < |reply.value| && ListId(reply.value[i]) == listId ==>
      Column(BoardAfterFetch(shown, reply), listId)
        == Column(reply.value[..i], listId) + [reply.value[i]] + Column(reply.value[i + 1..], listId)
  {
    if reply.Some? {
      var tasks := reply.value;
      forall i | 0 <= i < |tasks| && ListId(tasks[i]) == listId
        ensures Column(tasks, listId) == Column(tasks[..i], listId) + [tasks[i]] + Column(tasks[i + 1..], listId)
      {
        ColumnSplit(tasks, i, listId);
      }
    }
  }

  /** One task of the reply and the column cards around it. */
  lemma ColumnSplit(tasks: seq<Task>, i: nat, listId: string)
    requires i < |tasks| && ListId(tasks[i]) == listId
    ensures Column(tasks, listId) == Column(tasks[..i], listId) + [tasks[i]] + Column(tasks[i + 1..], listId)
  {
    assert tasks == tasks[..i] + ([tasks[i]] + tasks[i + 1..]);
    ColumnAppend(tasks[..i], [tasks[i]] + tasks[i + 1..], listId);
    assert ([tasks[i]] + tasks[i + 1..])[1..] == tasks[i + 1..];
  }

  /** `deadline` with a "Z" appended unless it already ends in one, so the
      browser reads it as UTC. */
  function NormalizeDeadline(d: string): (r: string)
    ensures EndsWithChar(r, 'Z')
    ensures StartsWith(r, d)
    ensures EndsWithChar(d, 'Z') <==> r == d
    ensures !EndsWithChar(d, 'Z') ==> |r| == |d| + 1
  {
    if EndsWithChar(d, 'Z') then d else d + "Z"
  }

  lemma NormalizeIdempotent(d: string)
    ensures NormalizeDeadline(NormalizeDeadline(d)) == NormalizeDeadline(d)
  {
  }

  const NoDeadlineText: string := "Без дедлайну"

  /** The deadline line of a card: the fixed text, or the local rendering
      (toLocaleString) of the instant written by the normalised string. */
  datatype DeadlineText = NoDeadline(text: string) | LocalOf(utc: string)

  datatype DeadlineView = DeadlineView(text: DeadlineText, urgent: bool)

  /** createTaskElement's deadline logic. `instantOf` stands for `new Date`
      on the normalised string (None for an invalid date, which compares
      false with anything); `now` is the current instant. */
  function Deadline(t: Task, now: int, instantOf: string -> Option<int>): (v: DeadlineView)
    ensures t.deadline == "" <==> v.text.NoDeadline?
    ensures v.text.NoDeadline? ==> v.text.text == NoDeadlineText
    ensures v.text.LocalOf? ==> v.text.utc == NormalizeDeadline(t.deadline)
    ensures v.urgent <==>
      && t.deadline != ""
      && !t.isCompleted
      && instantOf(NormalizeDeadline(t.deadline)).Some?
      && instantOf(NormalizeDeadline(t.deadline)).value < now
  {
    if t.deadline == "" then DeadlineView(NoDeadline(NoDeadlineText), false)
    else
      var utc := NormalizeDeadline(t.deadline);
      var at := instantOf(utc);
      DeadlineView(LocalOf(utc), !t.isCompleted && at.Some? && at.value < now)
  }

  /** Completed tasks and tasks without a deadline are never urgent. */
  lemma NeverUrgent(t: Task, now: int, instantOf: string -> Option<int>)
    requires t.isCompleted || t.deadline == ""
    ensures !Deadline(t, now, instantOf).urgent
  {
  }

  /** Once a task is overdue it stays overdue as time passes. */
  lemma UrgencyPersists(t: Task, now: int, later: int, instantOf: string -> Option<int>)
    requires now <= later
    requires Deadline(t, now, instantOf).urgent
    ensures Deadline(t, later, instantOf).urgent
  {
  }

  /** Whether the deadline carries its own "Z" or not, the same instant is
      looked up, so the two spellings render and rank alike. */
  lemma ZSuffixIrrelevant(t: Task, now: int, instantOf: string -> Option<int>)
    requires t.deadline != "" && !EndsWithChar(t.deadline, 'Z')
    ensures Deadline(t.(deadline := t.deadline + "Z"), now, instantOf) == Deadline(t, now, instantOf)
  {
  }

  const DeadlineInputWidth: nat := 16

  /** The number written by the digits v[i..j]. */
  function FieldValue(v: string, i: nat, j: nat): nat
    requires i <= j <= |v| && Digits(v, i, j)
    decreases j - i
  {
    if i == j then 0 else 10 * FieldValue(v, i, j - 1) + DigitValue(v[j - 1])
  }

  predicate Digits(v: string, i: nat, j: nat)
    requires i <= j <= |v|
  {
    forall k :: i <= k < j ==> IsDigit(v[k])
  }

  /** The digits of YYYY-MM-DD?HH:MM are where they belong. */
  predicate FieldDigits(v: string)
    requires |v| == DeadlineInputWidth
  {
    Digits(v, 0, 4) && Digits(v, 5, 7) && Digits(v, 8, 10) && Digits(v, 11, 13) && Digits(v, 14, 16)
  }

  /** A value of at most 16 characters that a datetime-local input accepts,
      following the HTML standard's valid local date and time string: a date
      YYYY-MM-DD from year 1 on that exists in the Gregorian calendar, "T" or
      a space, and a time HH:MM with the hour below 24 and the minute below
      60. Longer forms (seconds, five-digit years) need more characters. */
  predicate LocalDateTime(v: string)
  {
    && |v| == DeadlineInputWidth
    && v[4] == '-' && v[7] == '-' && (v[10] == 'T' || v[10] == ' ') && v[13] == ':'
    && FieldDigits(v)
    && 1 <= FieldValue(v, 0, 4)
    && Calendar.Valid(Calendar.Date(FieldValue(v, 0, 4), FieldValue(v, 5, 7), FieldValue(v, 8, 10)))
    && FieldValue(v, 11, 13) < 24 && FieldValue(v, 14, 16) < 60
  }

  /** The normalised form the input keeps: "T" between date and time. */
  predicate InputShaped(v: string)
  {
    LocalDateTime(v) && v[10] == 'T'
  }

  /** The value the deadline input holds after a script assigns `v`: the
      standard's value sanitisation keeps an accepted value, with its
      separator normalised to "T", and turns anything else into "". */
  function InputValue(v: string): (r: string)
    ensures r == "" <==> !LocalDateTime(v)
    ensures r != "" ==> InputShaped(r) && r[..10] == v[..10] && r[11..] == v[11..]
  {
    if LocalDateTime(v) then
      var r := v[..10] + "T" + v[11..];
      FieldsAgree(v, r);
      r
    else ""
  }

  /** Two values with the same digits have the same fields. */
  lemma FieldsAgree(v: string, w: string)
    requires |v| == |w| == DeadlineInputWidth
    requires forall k :: 0 <= k < |v| && k != 10 ==> v[k] == w[k]
    requires FieldDigits(v)
    ensures FieldDigits(w)
    ensures FieldValue(v, 0, 4) == FieldValue(w, 0, 4) && FieldValue(v, 5, 7) == FieldValue(w, 5, 7)
    ensures FieldValue(v, 8, 10) == FieldValue(w, 8, 10)
    ensures FieldValue(v, 11, 13) == FieldValue(w, 11, 13) && FieldValue(v, 14, 16) == FieldValue(w, 14, 16)
  {
    FieldPrefix(v, w, 0, 4);
    FieldPrefix(v, w, 5, 7);
    FieldPrefix(v, w, 8, 10);
    FieldPrefix(v, w, 11, 13);
    FieldPrefix(v, w, 14, 16);
  }

  lemma {:induction false} FieldPrefix(v: string, w: string, i: nat, j: nat)
    requires i <= j <= |v| && j <= |w|
    requires Digits(v, i, j) && forall k :: i <= k < j ==> v[k] == w[k]
    ensures Digits(w, i, j)
    ensures FieldValue(v, i, j) == FieldValue(w, i, j)
    decreases j - i
  {
    if i < j {
      FieldPrefix(v, w, i, j - 1);
    }
  }

  /** The input keeps a value unchanged exactly when it is empty or already
      in the normalised shape; in particular sanitising twice is sanitising
      once. */
  lemma InputValueFixedPoints(v: string)
    ensures InputValue(v) == v <==> v == "" || InputShaped(v)
    ensures InputValue(InputValue(v)) == InputValue(v)
  {
    var r := InputValue(v);
    if InputShaped(v) {
      assert r == v;
    }
    if r != "" {
      assert r == r[..10] + "T" + r[11..];
    }
  }

  /** The editor's fields. `deadline` is the datetime-local input's value. */
  datatype Form = Form(title: string, description: string, deadline: string)

  datatype Editor = Editor(editingId: Option<int>, form: Form)

  /** openModal(task): a reset form for a new task, else the task's fields;
      the deadline input is given the first 16 characters of the deadline
      and keeps them only when they form an accepted value. */
  function OpenModal(task: Option<Task>): (e: Editor)
    ensures task.None? ==> e == Editor(None, Form("", "", ""))
    ensures task.Some? ==>
      && e.editingId == Some(task.value.id)
      && e.form.title == task.value.title
      && e.form.description == task.value.description
      && (e.form.deadline != "" <==> LocalDateTime(Take(task.value.deadline, DeadlineInputWidth)))
      && (e.form.deadline != "" ==>
            && InputShaped(e.form.deadline)
            && e.form.deadline[..10] == task.value.deadline[..10]
            && e.form.deadline[11..] == task.value.deadline[11..DeadlineInputWidth])
  {
    match task
    case None => Editor(None, Form("", "", ""))
    case Some(t) => Editor(Some(t.id), Form(t.title, t.description, InputValue(Take(t.deadline, DeadlineInputWidth))))
  }

  /** The prefill shows the stored deadline unchanged exactly when it is
      empty or already YYYY-MM-DDTHH:MM. */
  lemma PrefillKeepsInputShape(t: Task)
    ensures OpenModal(Some(t)).form.deadline == t.deadline <==> t.deadline == "" || InputShaped(t.deadline)
  {
    var cut := Take(t.deadline, DeadlineInputWidth);
    InputValueFixedPoints(cut);
    if OpenModal(Some(t)).form.deadline == t.deadline && t.deadline != "" {
      assert LocalDateTime(cut);
      assert |t.deadline| == DeadlineInputWidth;
      assert cut == t.deadline;
    }
  }

  datatype Verb = Post | Put

  /** The JSON body of a save: `deadline` None for an empty input and
      `teamId` None outside a team tab. */
  datatype TaskData = TaskData(title: string, description: string, deadline: Option<string>, teamId: Option<string>)

  datatype Request =
    | Save(verb: Verb, url: string, data: TaskData)
    | SetCompleted(id: int, isCompleted: int)
    | Remove(id: int)

  const TasksUrl: string := "/api/tasks"

  /** The team id of the active tab: its name without the leading "team-". */
  function TabTeamId(activeTab: Option<string>): (r: Option<string>)
    ensures r.Some? <==> activeTab.Some? && StartsWith(activeTab.value, TeamPrefix)
    ensures r.Some? ==> TeamPrefix + r.value == activeTab.value
  {
    match activeTab
    case Some(tab) =>
      if StartsWith(tab, TeamPrefix) then
        assert TeamPrefix + tab[|TeamPrefix|..] == tab;
        Some(tab[|TeamPrefix|..])
      else None
    case None => None
  }

  /** The submit handler's request: PUT to the task's own URL while
      editing a task with a truthy id, POST to the collection otherwise. */
  function Submit(editingId: Option<int>, activeTab: Option<string>, form: Form): (r: Request)
    ensures r.Save?
    ensures r.data == TaskData(form.title, form.description,
                               if form.deadline == "" then None else Some(form.deadline),
                               TabTeamId(activeTab))
    ensures r.verb == Put <==> Truthy(editingId)
    ensures r.verb == Post ==> r.url == TasksUrl
    ensures r.verb == Put ==>
      && StartsWith(r.url, TasksUrl + "/")
      && ParseInt(r.url[|TasksUrl| + 1..]) == editingId
  {
    var data := TaskData(form.title, form.description,
                         if form.deadline == "" then None else Some(form.deadline),
                         TabTeamId(activeTab));
    if Truthy(editingId) then
      var url := TasksUrl + "/" + IntToString(editingId.value);
      ParseIntOfIntToString(editingId.value);
      assert url[|TasksUrl| + 1..] == IntToString(editingId.value);
      Save(Put, url, data)
    else Save(Post, TasksUrl, data)
  }

  /** Editing an existing task and saving it untouched sends its own title
      and description back to its own URL. The deadline goes back as stored
      when it is empty or YYYY-MM-DDTHH:MM; a space separator comes back as
      "T", and any other deadline is sent as null. */
  lemma EditResubmits(t: Task, activeTab: Option<string>)
    requires t.id != 0
    ensures var e := OpenModal(Some(t));
      var r := Submit(e.editingId, activeTab, e.form);
      && r.verb == Put
      && ParseInt(r.url[|TasksUrl| + 1..]) == Some(t.id)
      && r.data.title == t.title
      && r.data.description == t.description
      && (r.data.deadline.None? <==> !LocalDateTime(Take(t.deadline, DeadlineInputWidth)))
      && ((t.deadline == "" || InputShaped(t.deadline)) ==>
            r.data.deadline == if t.deadline == "" then None else Some(t.deadline))
  {
    PrefillKeepsInputShape(t);
  }

  /** The value of a two-digit and of a four-digit field. */
  lemma TwoDigitField(v: string, i: nat)
    requires i + 2 <= |v| && Digits(v, i, i + 2)
    ensures FieldValue(v, i, i + 2) == 10 * DigitValue(v[i]) + DigitValue(v[i + 1])
  {
    assert FieldValue(v, i, i + 1) == DigitValue(v[i]);
  }

  lemma FourDigitField(v: string, i: nat)
    requires i + 4 <= |v| && Digits(v, i, i + 4)
    ensures FieldValue(v, i, i + 4) ==
      1000 * DigitValue(v[i]) + 100 * DigitValue(v[i + 1]) + 10 * DigitValue(v[i + 2]) + DigitValue(v[i + 3])
  {
    TwoDigitField(v, i);
    assert FieldValue(v, i, i + 3) == 10 * FieldValue(v, i, i + 2) + DigitValue(v[i + 2]);
  }

  /** A deadline stored with a space is sent back with "T". */
  lemma SpaceSeparatorNormalised()
    ensures InputValue("2025-03-10 09:00") == "2025-03-10T09:00"
  {
    var v, w := "2025-03-10 09:00", "2025-03-10T09:00";
    SampleDate(v);
    SampleTime(v);
    var r := InputValue(v);
    assert forall k :: 0 <= k < 16 ==> r[k] == w[k] by {
      assert r[..10] == v[..10] && r[11..] == v[11..] && r[10] == 'T';
    }
  }

  lemma SampleDate(v: string)
    requires v == "2025-03-10 09:00"
    ensures |v| == DeadlineInputWidth && FieldDigits(v)
    ensures FieldValue(v, 0, 4) == 2025 && FieldValue(v, 5, 7) == 3 && FieldValue(v, 8, 10) == 10
  {
    SampleYear(v);
    TwoDigitField(v, 5);
    TwoDigitField(v, 8);
  }

  lemma SampleYear(v: string)
    requires |v| >= 4 && v[0] == '2' && v[1] == '0' && v[2] == '2' && v[3] == '5'
    ensures Digits(v, 0, 4) && FieldValue(v, 0, 4) == 2025
  {
    TwoDigitField(v, 0);
    assert FieldValue(v, 0, 3) == 202;
  }

  lemma SampleTime(v: string)
    requires v == "2025-03-10 09:00"
    ensures |v| == DeadlineInputWidth && FieldDigits(v)
    ensures FieldValue(v, 11, 13) == 9 && FieldValue(v, 14, 16) == 0
  {
    TwoDigitField(v, 11);
    TwoDigitField(v, 14);
  }

  /** A bare date is not a date and time: the deadline is sent as null. */
  lemma BareDateDropped()
    ensures InputValue("2025-03-10") == ""
  {
  }

  /** A day the month does not have is dropped. */
  lemma MissingDayDropped()
    ensures InputValue("2025-02-29T09:00") == ""
  {
    var v := "2025-02-29T09:00";
    FourDigitField(v, 0);
    TwoDigitField(v, 5);
    TwoDigitField(v, 8);
  }

  /** toggleTaskComplete: `is_completed` 1 for an incomplete task, 0 for a
      completed one. */
  function Toggle(t: Task): (r: Request)
    ensures r.SetCompleted? && r.id == t.id
    ensures r.isCompleted == 1 <==> !t.isCompleted
    ensures r.isCompleted == 0 || r.isCompleted == 1
  {
    SetCompleted(t.id, if !t.isCompleted then 1 else 0)
  }

  /** A click on a card's checkbox: the checkbox's own look flips at once,
      and the request is the toggle of the task the card was drawn from. */
  function CheckboxClick(t: Task, checked: bool): (r: (bool, Request))
    ensures r.0 == !checked
    ensures r.1.SetCompleted? && r.1.id == t.id
    ensures r.1.isCompleted == 1 <==> !t.isCompleted
  {
    (!checked, Toggle(t))
  }

  /** Until the board is fetched again a card keeps the task it was drawn
      from, so a second click sends the same request as the first: both ask
      for the flipped status, while the checkbox shows the old one again. */
  lemma ClicksBeforeRedraw(t: Task)
    ensures var first := CheckboxClick(t, t.isCompleted);
      var second := CheckboxClick(t, first.0);
      && second.1 == first.1
      && second.0 == t.isCompleted
      && (second.1.isCompleted == 1 <==> !t.isCompleted)
  {
  }

  /** The context menu's toggle entry names what the toggle will do. */
  function ToggleLabel(t: Task): (s: string)
    ensures s == "Завершити" <==> Toggle(t).isCompleted == 1
    ensures s == "Відновити" <==> Toggle(t).isCompleted == 0
  {
    if t.isCompleted then "Відновити" else "Завершити"
  }

  /** deleteTask: nothing without an accepted confirm(). */
  function DeleteTask(id: int, confirmed: bool): (r: Option<Request>)
    ensures r.Some? <==> confirmed
    ensures r.Some? ==> r.value == Remove(id)
  {
    if confirmed then Some(Remove(id)) else None
  }

  /** What a context-menu click leads to. */
  datatype MenuEffect = NoEffect | OpenEditor(editor: Editor) | Send(request: Request)

  /** The context menu's click handler: nothing without a remembered task,
      otherwise the action named by the clicked entry. */
  function MenuClick(current: Option<Task>, action: string, confirmed: bool): (r: MenuEffect)
    ensures current.None? ==> r == NoEffect
    ensures current.Some? && action == "toggle-complete" ==> r == Send(Toggle(current.value))
    ensures current.Some? && action == "edit" ==> r == OpenEditor(OpenModal(current))
    ensures current.Some? && action == "delete" ==>
      (r.Send? <==> confirmed) && (r.Send? ==> r.request == Remove(current.value.id))
    ensures r.Send? && r.request.Remove? ==> action == "delete" && confirmed
  {
    match current
    case None => NoEffect
    case Some(t) =>
      if action == "toggle-complete" then Send(Toggle(t))
      else if action == "edit" then OpenEditor(OpenModal(current))
      else if action == "delete" then
        match DeleteTask(t.id, confirmed)
        case Some(req) => Send(req)
        case None => NoEffect
      else NoEffect
  }
}
