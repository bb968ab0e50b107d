/** The notification record both page scripts receive from
    GET /api/notifications (newest first), and the counts over it. */
module Notifications {
  import opened Text

  /** `kind` is the record's `type`; `relatedId` its `related_id`. */
  datatype Notification = Notification(
    id: int,
    isRead: bool,
    kind: string,
    title: string,
    message: string,
    relatedId: int)

  const TeamInvite: string := "team_invite"
  const TeamMessage: string := "team_message"

  /** `notifications.filter((n) => !n.is_read)`. */
  function Unread(ns: seq<Notification>): (r: seq<Notification>)
    ensures |r| <= |ns|
    ensures forall i :: 0 <= i < |r| ==> !r[i].isRead
    ensures forall n :: n in r <==> n in ns && !n.isRead
    decreases |ns|
  {
    if ns == [] then []
    else
      var rest := Unread(ns[1..]);
      if !ns[0].isRead then [ns[0]] + rest else rest
  }

  /** The filter distributes over concatenation, so it keeps the records in
      the order the server sent them. */
  lemma {:induction false} UnreadAppend(a: seq<Notification>, b: seq<Notification>)
    ensures Unread(a + b) == Unread(a) + Unread(b)
    decreases |a|
  {
    if a == [] {
      assert a + b == b;
    } else {
      assert (a + b)[1..] == a[1..] + b;
      UnreadAppend(a[1..], b);
    }
  }

  /** A list of read records filters to nothing. */
  lemma {:induction false} UnreadOfRead(a: seq<Notification>)
    requires forall j :: 0 <= j < |a| ==> a[j].isRead
    ensures Unread(a) == []
    decreases |a|
  {
    if a != [] {
      UnreadOfRead(a[1..]);
    }
  }

  /** The first record of the filter is the first unread record of the list,
      which is the newest one since the server sends newest first. */
  lemma UnreadHead(ns: seq<Notification>, k: nat)
    requires k < |ns| && !ns[k].isRead
    requires forall j :: 0 <= j < k ==> ns[j].isRead
    ensures |Unread(ns)| > 0 && Unread(ns)[0] == ns[k]
  {
    assert ns == ns[..k] + ns[k..];
    UnreadAppend(ns[..k], ns[k..]);
    UnreadOfRead(ns[..k]);
    assert ns[k..] == [ns[k]] + ns[k + 1..];
    UnreadAppend([ns[k]], ns[k + 1..]);
  }

  /** The number of records with `!is_read`. */
  function CountUnread(ns: seq<Notification>): (c: nat)
    ensures c <= |ns|
    ensures c == 0 <==> forall i :: 0 <= i < |ns| ==> ns[i].isRead
    decreases |ns|
  {
    if ns == [] then 0
    else (if ns[0].isRead then 0 else 1) + CountUnread(ns[1..])
  }

  /** The filter keeps exactly the unread records: its length is their count. */
  lemma {:induction false} UnreadLength(ns: seq<Notification>)
    ensures |Unread(ns)| == CountUnread(ns)
    decreases |ns|
  {
    if ns != [] {
      UnreadLength(ns[1..]);
    }
  }

  /** The red counter next to the bell. */
  datatype Counter = Hidden | Badge(text: string)

  datatype Request =
    | MarkRead(id: int)
    | DeleteNotification(id: int)
    | CreateTeam(name: string)
}

/** The bell (static/base.js): counter, high-water mark and
    browser notifications on polling, per-item buttons, the confirmations in
    front of decline/delete, and the local-time text of `.local-time` items. */
module Bell {
  import opened Text
  import opened Notifications

  const CounterCap: nat := 99
  const CappedText: string := "99+"

  /** updateCounter: hidden without unread records, otherwise their number,
      shown as "99+" above 99. */
  function BellCounter(ns: seq<Notification>): (c: Counter)
    ensures c == Hidden <==> forall i :: 0 <= i < |ns| ==> ns[i].isRead
    ensures c.Badge? ==> 1 <= |c.text| <= 3
    ensures c.Badge? && CountUnread(ns) <= CounterCap ==>
      AllDigits(c.text) && ParseDecimal(c.text) == |Unread(ns)|
    ensures CountUnread(ns) > CounterCap ==> c == Badge(CappedText)
  {
    var count := |Unread(ns)|;
    UnreadLength(ns);
    ParseDecimalOfDecimal(count);
    if count == 0 then Hidden
    else if count > CounterCap then Badge(CappedText)
    else Badge(Decimal(count))
  }

  /** The records an automatic check reports: newer than the mark and unread. */
  function Fresh(ns: seq<Notification>, lastId: int): (r: seq<Notification>)
    ensures |r| <= |ns|
    ensures forall n :: n in r <==> n in ns && n.id > lastId && !n.isRead
    ensures forall i :: 0 <= i < |r| ==> r[i].id > lastId && !r[i].isRead
    decreases |ns|
  {
    if ns == [] then []
    else
      var rest := Fresh(ns[1..], lastId);
      if ns[0].id > lastId && !ns[0].isRead then [ns[0]] + rest else rest
  }

  /** Fresh keeps the list's order: it splits over concatenation. */
  lemma {:induction false} FreshAppend(a: seq<Notification>, b: seq<Notification>, lastId: int)
    ensures Fresh(a + b, lastId) == Fresh(a, lastId) + Fresh(b, lastId)
    decreases |a|
  {
    if a == [] {
      assert a + b == b;
    } else {
      assert (a + b)[1..] == a[1..] + b;
      FreshAppend(a[1..], b, lastId);
    }
  }

  const PopupCap: nat := 3

  /** The effect of one fetchNotifications call: the new mark, the browser
      notifications shown (in order), whether the list is drawn again, and
      the counter (None when it is left as it was). */
  datatype Poll = Poll(lastId: int, popups: seq<Notification>, redraw: bool, counter: Option<Counter>)

  /** fetchNotifications(isAutoCheck): `reply` is None when the response is
      not ok or the request fails. The first non-empty answer while the mark
      is 0 only sets the mark to the head record's id; an automatic check
      after that shows at most three newer records and moves the mark to the
      head record's id when there was any. */
  function FetchNotifications(lastId: int, auto: bool, modalActive: bool, reply: Option<seq<Notification>>): (r: Poll)
    ensures reply.None? ==> r == Poll(lastId, [], false, None)
    ensures reply.Some? ==> r.counter == Some(BellCounter(reply.value))
    ensures reply.Some? ==> (r.redraw <==> !auto || modalActive)
    ensures reply.Some? && lastId == 0 && |reply.value| > 0 ==>
      r.lastId == reply.value[0].id && r.popups == []
    ensures reply.Some? && lastId != 0 && auto ==>
      (var newer := Fresh(reply.value, lastId);
       && r.popups == (if |newer| <= PopupCap then newer else newer[..PopupCap])
       && r.lastId == (if |newer| > 0 then reply.value[0].id else lastId))
    ensures (reply.Some? && lastId != 0 && !auto) || (reply.Some? && reply.value == []) ==>
      r.lastId == lastId && r.popups == []
  {
    match reply
    case None => Poll(lastId, [], false, None)
    case Some(ns) =>
      var counter := Some(BellCounter(ns));
      var redraw := !auto || modalActive;
      if lastId == 0 && |ns| > 0 then Poll(ns[0].id, [], redraw, counter)
      else if auto && |ns| > 0 then
        var newer := Fresh(ns, lastId);
        var shown := if |newer| <= PopupCap then newer else newer[..PopupCap];
        Poll(if |newer| > 0 then ns[0].id else lastId, shown, redraw, counter)
      else Poll(lastId, [], redraw, counter)
  }

  /** Every browser notification is an unread record of the reply, newer than
      the previous mark; there are never more than three, and the mark moves
      only when one is shown. */
  lemma PopupsAreFresh(lastId: int, auto: bool, modalActive: bool, ns: seq<Notification>)
    ensures var r := FetchNotifications(lastId, auto, modalActive, Some(ns));
      && |r.popups| <= PopupCap
      && (forall i :: 0 <= i < |r.popups| ==>
            r.popups[i] in ns && r.popups[i].id > lastId && !r.popups[i].isRead)
      && (lastId != 0 && r.lastId != lastId ==> |r.popups| > 0 && r.lastId == ns[0].id)
  {
    var r := FetchNotifications(lastId, auto, modalActive, Some(ns));
    if lastId != 0 && auto && |ns| > 0 {
      var newer := Fresh(ns, lastId);
      forall i | 0 <= i < |r.popups|
        ensures r.popups[i] in ns && r.popups[i].id > lastId && !r.popups[i].isRead
      {
        assert r.popups[i] == newer[i];
        assert newer[i] in newer;
      }
    }
  }

  /** The buttons renderNotifications draws for one record. */
  datatype Buttons = Buttons(acceptDecline: bool, markRead: bool, delete: bool)

  function ItemButtons(n: Notification): (b: Buttons)
    ensures b.delete
    ensures b.acceptDecline <==> n.kind == TeamInvite && !n.isRead
    ensures b.markRead <==> !n.isRead && n.kind != TeamInvite
  {
    Buttons(n.kind == TeamInvite && !n.isRead, !n.isRead && n.kind != TeamInvite, true)
  }

  /** An unread record offers exactly one way to settle it (accept/decline
      for an invitation, "mark read" for anything else); a read one offers
      only deletion. */
  lemma OneWayToSettle(n: Notification)
    ensures !n.isRead ==> (ItemButtons(n).acceptDecline != ItemButtons(n).markRead)
    ensures n.isRead ==> !ItemButtons(n).acceptDecline && !ItemButtons(n).markRead
  {
  }

  datatype ListView = EmptyList(text: string) | Items(buttons: seq<Buttons>)

  const NoNewText: string := "Немає нових сповіщень"

  /** renderNotifications: a placeholder for an empty list, else one item per record. */
  function RenderList(ns: seq<Notification>): (v: ListView)
    ensures v.EmptyList? <==> ns == []
    ensures v.Items? ==> |v.buttons| == |ns| && forall i :: 0 <= i < |ns| ==> v.buttons[i] == ItemButtons(ns[i])
  {
    if ns == [] then EmptyList(NoNewText)
    else Items(seq(|ns|, i requires 0 <= i < |ns| => ItemButtons(ns[i])))
  }

  /** The mark doubles as the "first load" flag: while it is 0, a non-empty
      reply only sets it. So when the page loaded with an empty list, the
      first record to arrive later raises no browser notification. */
  lemma FirstArrivalAfterEmptyLoadIsSilent(n: Notification, modalActive: bool)
    requires !n.isRead && n.id > 0
    ensures FetchNotifications(0, false, false, Some([])).lastId == 0
    ensures var r := FetchNotifications(0, true, modalActive, Some([n]));
      r.popups == [] && r.lastId == n.id
  {
  }

  /** window.deleteNotification: nothing without an accepted confirm(). */
  function Delete(id: int, confirmed: bool): (r: Option<Request>)
    ensures r.Some? <==> confirmed
    ensures r.Some? ==> r.value == DeleteNotification(id)
  {
    if confirmed then Some(DeleteNotification(id)) else None
  }

  /** window.declineInvite: its own confirm(), then deleteNotification with
      its confirm(). */
  function DeclineInvite(id: int, declineConfirmed: bool, deleteConfirmed: bool): (r: Option<Request>)
    ensures r.Some? <==> declineConfirmed && deleteConfirmed
    ensures r.Some? ==> r == Delete(id, true)
  {
    if !declineConfirmed then None else Delete(id, deleteConfirmed)
  }
}

/** The notification list of the teams pages (static/teams.js): the
    uncapped counter, one desktop notification for the newest unread record
    remembered by id, item actions and links, and team creation. */
module TeamsFeed {
  import opened Text
  import opened Notifications
  import Bell

  /** The counter without a cap. */
  function TeamsCounter(ns: seq<Notification>): (c: Counter)
    ensures c == Hidden <==> CountUnread(ns) == 0
    ensures c.Badge? ==> 1 <= |c.text| && AllDigits(c.text) && ParseDecimal(c.text) == CountUnread(ns)
  {
    var count := |Unread(ns)|;
    UnreadLength(ns);
    ParseDecimalOfDecimal(count);
    if count > 0 then Badge(Decimal(count)) else Hidden
  }

  /** The desktop notification shown (if any) and the id remembered
      afterwards (localStorage's `lastNotificationId`, None when absent). */
  datatype Alert = Alert(shown: Option<Notification>, stored: Option<int>)

  /** True when the newest unread record is newer than the remembered id. */
  predicate NewerThanStored(ns: seq<Notification>, stored: Option<int>)
  {
    |Unread(ns)| > 0 && (stored.None? || Unread(ns)[0].id > stored.value)
  }

  /** loadNotifications: only the newest unread record is considered. When
      nothing is remembered yet or its id is greater than the remembered one,
      it is remembered, and shown if the browser permission is granted. */
  function DesktopAlert(ns: seq<Notification>, permitted: bool, stored: Option<int>): (r: Alert)
    ensures r.shown.Some? <==> permitted && NewerThanStored(ns, stored)
    ensures r.shown.Some? ==> r.shown.value == Unread(ns)[0]
    ensures NewerThanStored(ns, stored) ==> r.stored == Some(Unread(ns)[0].id)
    ensures !NewerThanStored(ns, stored) ==> r.stored == stored
  {
    var unread := Unread(ns);
    if |unread| > 0 && (stored.None? || unread[0].id > stored.value) then
      Alert(if permitted then Some(unread[0]) else None, Some(unread[0].id))
    else Alert(None, stored)
  }

  /** The remembered id never goes down, and once set it stays set. */
  lemma StoredIdNeverDecreases(ns: seq<Notification>, permitted: bool, stored: Option<int>)
    ensures stored.Some? ==>
      && DesktopAlert(ns, permitted, stored).stored.Some?
      && DesktopAlert(ns, permitted, stored).stored.value >= stored.value
  {
  }

  /** A record is announced at most once: polling the same list again with
      the id remembered from the first poll shows nothing. */
  lemma NoRepeatAlert(ns: seq<Notification>, permitted: bool, again: bool, stored: Option<int>)
    ensures DesktopAlert(ns, again, DesktopAlert(ns, permitted, stored).stored).shown.None?
  {
  }

  /** The alert is about the first unread record of the list as the server
      sent it: it is shown exactly when permission is granted and that
      record's id is above the remembered one (or none is remembered). */
  lemma AlertIsFirstUnread(ns: seq<Notification>, k: nat, permitted: bool, stored: Option<int>)
    requires k < |ns| && !ns[k].isRead
    requires forall j :: 0 <= j < k ==> ns[j].isRead
    ensures var a := DesktopAlert(ns, permitted, stored);
      && (a.shown.Some? <==> permitted && (stored.None? || ns[k].id > stored.value))
      && (a.shown.Some? ==> a.shown.value == ns[k])
      && (stored.None? || ns[k].id > stored.value ==> a.stored == Some(ns[k].id))
  {
    UnreadHead(ns, k);
  }

  /** One rendered item: accept/decline only for an unread invitation, a
      link only for a chat message, and both icon buttons always. */
  datatype ItemView = ItemView(id: int, acceptDecline: bool, link: Option<string>, markRead: bool, delete: bool)

  function Item(n: Notification): (v: ItemView)
    ensures v.acceptDecline <==> n.kind == TeamInvite && !n.isRead
    ensures v.link.Some? <==> n.kind == TeamMessage
    ensures v.link.Some? ==>
      && StartsWith(v.link.value, "/team/")
      && ParseInt(v.link.value[6..]) == Some(n.relatedId)
    ensures v.markRead && v.delete
  {
    ParseIntOfIntToString(n.relatedId);
    ItemView(n.id, n.kind == TeamInvite && !n.isRead,
             if n.kind == TeamMessage then Some("/team/" + IntToString(n.relatedId)) else None,
             true, true)
  }

  datatype ListView = Placeholder(text: string) | Items(items: seq<ItemView>)

  const NoNotificationsText: string := "Немає повідомлень"

  function RenderList(ns: seq<Notification>): (v: ListView)
    ensures v.Placeholder? <==> ns == []
    ensures v.Items? ==> |v.items| == |ns| && forall i :: 0 <= i < |ns| ==> v.items[i] == Item(ns[i])
  {
    if ns == [] then Placeholder(NoNotificationsText)
    else Items(seq(|ns|, i requires 0 <= i < |ns| => Item(ns[i])))
  }

  /** What a click on an item does. */
  datatype ClickEffect = NoEffect | Follow(url: string) | Send(request: Request)

  /** The item carries `JSON.stringify(notif)` between single quotes, and
      JSON does not escape an apostrophe: one in a string field ends the
      attribute early, and the listener's `JSON.parse` of what is left
      throws. */
  predicate QuoteInRecord(n: Notification)
  {
    '\'' in n.kind || '\'' in n.title || '\'' in n.message
  }

  /** A click on a button is handled by the button alone; elsewhere a chat
      message is followed through its inline link, and any other record is
      marked read when its attribute parses back. */
  function ItemClick(n: Notification, onButton: bool): (r: ClickEffect)
    ensures r.Send? <==> !onButton && n.kind != TeamMessage && !QuoteInRecord(n)
    ensures r.Send? ==> r.request == MarkRead(n.id)
    ensures r.Follow? <==> !onButton && n.kind == TeamMessage
    ensures r.Follow? ==> Some(r.url) == Item(n).link
  {
    if onButton then NoEffect
    else if n.kind == TeamMessage then Follow("/team/" + IntToString(n.relatedId))
    else if QuoteInRecord(n) then NoEffect
    else Send(MarkRead(n.id))
  }

  /** The delete icon calls the global `deleteNotification`. The one
      teams.js declares sends the delete at once; when base.js also runs on
      the page, its load handler has replaced that global with
      `window.deleteNotification`, which asks first. */
  function DeleteClicked(id: int, bellScript: bool, confirmed: bool): (r: Option<Request>)
    ensures r.Some? <==> !bellScript || confirmed
    ensures r.Some? ==> r.value == DeleteNotification(id)
    ensures bellScript ==> r == Bell.Delete(id, confirmed)
  {
    if bellScript then Bell.Delete(id, confirmed) else Some(DeleteNotification(id))
  }

  /** declineTeamInvite sends its own delete, with no confirmation whichever
      scripts run: the request of the unconfirmed delete icon. */
  function DeclineClicked(id: int): (r: Request)
    ensures Some(r) == DeleteClicked(id, false, false)
    ensures forall confirmed :: Some(r) == DeleteClicked(id, true, confirmed) <==> confirmed
  {
    DeleteNotification(id)
  }

  /** The "create team" button: a name that trims to nothing sends nothing;
      otherwise the trimmed name is sent. */
  function CreateTeamClicked(input: string): (r: Option<Request>)
    ensures r.None? <==> AllSpace(input)
    ensures r.Some? ==>
      && r.value == CreateTeam(Trim(input))
      && Trim(input) != ""
      && !IsJsSpace(Trim(input)[0])
      && !IsJsSpace(Trim(input)[|Trim(input)| - 1])
  {
    var name := Trim(input);
    if name == "" then None else Some(CreateTeam(name))
  }

  /** The two pages differ on many unread records: the bell caps at "99+",
      the teams counter shows the number. */
  lemma CountersDiffer(ns: seq<Notification>)
    requires CountUnread(ns) > 99
    ensures TeamsCounter(ns) != Bell.BellCounter(ns)
  {
    var t := TeamsCounter(ns);
    ParseDecimalOfDecimal(100);
    assert Bell.BellCounter(ns) == Badge("99+");
    assert !AllDigits("99+") by { assert !IsDigit("99+"[2]); }
  }
}
