/** The chat handlers of bot.js and the timer callback they schedule, as steps of
    a state machine over the reminder table and the set of pending timers.

    Each step returns the new state and the texts sent to the chat, in order.
    Which handler a message reaches (the `bot.hears` patterns) is decided by
    the caller; the handlers here take what they read out of the message. */
module Bot {
  import opened Wrappers
  import opened CreateCommand
  import opened FireTime
  import opened ReminderStore
  import opened ListReply

  /** The reply to a create command the pattern rejects (line 102). */
  const FormatHint: string :=
    "Неверный формат. " + "Введите событие и время/дату в формате: "
    + "\"событие ЧЧ:ММ\" или \"событие ДД.MM ЧЧ:ММ\""

  /** The reply to an accepted create command (line 128). */
  const Done: string := "Готово! ✔️"

  /** Line 82. */
  function NotFound(name: string): string {
    "Напоминание \"" + name + "\" не найдено."
  }

  /** Line 86. */
  function Deleted(name: string): string {
    "Напоминание \"" + name + "\" успешно удалено."
  }

  /** Lines 155 and 178. */
  function Reminder(event: string): string {
    "Напоминаю: " + event
  }

  /** A `setTimeout` the create handler scheduled and that has not fired yet: the
      id `addReminderToDB` returned, the event text and the delay. */
  datatype Timer = Timer(id: int, event: string, delay: int)

  datatype State = State(store: Store, timers: seq<Timer>)

  /** The state after a handler ran, and what it sent, in order. */
  datatype Step = Step(state: State, replies: seq<string>)

  /** A fresh table and no timers. */
  const Start: State := State(Empty, [])

  // ---------------------------------------------------------------------------
  // Handlers

  /** What the `!напомни` handler does once it has the event, the resolved time
      and the delay to it (lines 125-182): `Готово! ✔️` is sent first; then the
      row is inserted and a timer is set for its id. When the insert fails the
      handler stops there. */
  function Accept(s: State, event: string, time: int, delay: int): (r: Step)
    ensures r.replies == [Done]
    ensures r.state.store.rows == s.store.rows <==> r.state == s
  {
    match Insert(s.store, event, time)
    case Failure(_) => Step(s, [Done])
    case Success(inserted) =>
      assert |inserted.0.rows| == |s.store.rows| + 1;
      Step(State(inserted.0, s.timers + [Timer(inserted.1, event, delay)]), [Done])
  }

  /** The `!напомни` handler (lines 95-186) on message `text` at local time
      `now`. A rejected message gets the hint and changes nothing. */
  function Create(s: State, text: string, now: int): (r: Step)
    ensures |r.replies| == 1
    ensures r.replies[0] == FormatHint <==> ParseRequest(text).Failure?
    ensures ParseRequest(text).Failure? ==> r.state == s
  {
    assert FormatHint[0] == 'Н' && Done[0] == 'Г';
    match ParseRequest(text)
    case Failure(_) => Step(s, [FormatHint])
    case Success(req) => Accept(s, req.event, Resolve(req, now), Delay(req, now))
  }

  /** The `!лист` handler (lines 46-69). */
  function List(s: State): (r: Step)
    ensures r.state == s && |r.replies| == 1
    ensures r.replies[0] == EmptyReply <==> s.store.rows == []
  {
    ReplyEmptyIff(s.store.rows);
    Step(s, [Reply(s.store.rows)])
  }

  /** The `!удалить` handler (lines 72-92) for the event text `name`: the first
      row whose event is exactly `name` is deleted. Its timer is not cancelled. */
  function DeleteByName(s: State, name: string): (r: Step)
    ensures r.state.timers == s.timers && r.state.store.lastId == s.store.lastId
    ensures |r.replies| == 1
  {
    match FirstWithEvent(s.store.rows, name)
    case None => Step(s, [NotFound(name)])
    case Some(k) => Step(State(DeleteById(s.store, s.store.rows[k].id), s.timers), [Deleted(name)])
  }

  /** Pending timer `i` fires (lines 154-158, 177-181): the reminder is sent,
      then the row with the timer's id is deleted, whether or not it is still
      there. */
  function Fire(s: State, i: int): (r: Step)
    requires 0 <= i < |s.timers|
    ensures r.replies == [Reminder(s.timers[i].event)]
    ensures |r.state.timers| == |s.timers| - 1
    ensures forall j :: 0 <= j < |s.timers| && j != i ==> s.timers[j] in r.state.timers
    ensures forall t :: t in r.state.timers ==> t in s.timers
    ensures r.state.store.lastId == s.store.lastId
  {
    var t := s.timers[i];
    var rest := s.timers[..i] + s.timers[i + 1..];
    assert forall j :: 0 <= j < |s.timers| && j != i ==> s.timers[j] in rest by {
      forall j | 0 <= j < |s.timers| && j != i ensures s.timers[j] in rest {
        if j < i { assert rest[j] == s.timers[j]; } else { assert rest[j - 1] == s.timers[j]; }
      }
    }
    Step(State(DeleteById(s.store, t.id), rest), [Reminder(t.event)])
  }

  // ---------------------------------------------------------------------------
  // The lifecycle invariant

  /** Timer ids strictly increase in the order the timers were set. */
  predicate TimersIncreasing(ts: seq<Timer>) {
    forall i, j :: 0 <= i < j < |ts| ==> ts[i].id < ts[j].id
  }

  /** Every row still has the timer that will delete it, with the same event. */
  predicate Tracked(rows: seq<Row>, ts: seq<Timer>) {
    forall r :: r in rows ==> exists t :: t in ts && t.id == r.id && t.event == r.event
  }

  /** The table is valid, every timer holds an id the table issued, no two timers
      share an id, and no row is left without its timer. */
  predicate Inv(s: State) {
    && Valid(s.store)
    && TimersIncreasing(s.timers)
    && (forall i :: 0 <= i < |s.timers| ==> 1 <= s.timers[i].id <= s.store.lastId)
    && Tracked(s.store.rows, s.timers)
  }

  /** The table right after `CREATE TABLE`, with no timers, satisfies the invariant. */
  lemma StartInv()
    ensures Inv(Start)
  {
  }

  /** A new row and its timer keep every row tracked. */
  lemma TrackedAppend(rows: seq<Row>, ts: seq<Timer>, r: Row, t: Timer)
    requires Tracked(rows, ts) && t.id == r.id && t.event == r.event
    ensures Tracked(rows + [r], ts + [t])
  {
    forall x | x in rows + [r] ensures exists u :: u in ts + [t] && u.id == x.id && u.event == x.event {
      if x in rows {
        var u :| u in ts && u.id == x.id && u.event == x.event;
        assert u in ts + [t];
      } else {
        assert t in ts + [t];
      }
    }
  }

  /** A timer with an id above every pending one keeps the timers in id order. */
  lemma TimersAppend(ts: seq<Timer>, t: Timer)
    requires TimersIncreasing(ts)
    requires forall i :: 0 <= i < |ts| ==> ts[i].id < t.id
    ensures TimersIncreasing(ts + [t])
  {
  }

  lemma AcceptInv(s: State, event: string, time: int, delay: int)
    requires Inv(s)
    ensures Inv(Accept(s, event, time, delay).state)
  {
    var s' := Accept(s, event, time, delay).state;
    if s' != s {
      InsertValid(s.store, event, time);
      var id := s.store.lastId + 1;
      var t := Timer(id, event, delay);
      assert s'.timers == s.timers + [t];
      assert s'.store.rows == s.store.rows + [Row(id, event, time)];
      TrackedAppend(s.store.rows, s.timers, Row(id, event, time), t);
      TimersAppend(s.timers, t);
    }
  }

  lemma CreateInv(s: State, text: string, now: int)
    requires Inv(s)
    ensures Inv(Create(s, text, now).state)
  {
    if ParseRequest(text).Success? {
      var req := ParseRequest(text).value;
      AcceptInv(s, req.event, Resolve(req, now), Delay(req, now));
    }
  }

  lemma DeleteByNameInv(s: State, name: string)
    requires Inv(s)
    ensures Inv(DeleteByName(s, name).state)
  {
    var r := DeleteByName(s, name);
    match FirstWithEvent(s.store.rows, name)
    case None =>
    case Some(k) =>
      DeleteByIdValid(s.store, s.store.rows[k].id);
  }

  /** Removing one timer keeps the rest in id order. */
  lemma RemoveTimerIncreasing(ts: seq<Timer>, i: int)
    requires TimersIncreasing(ts) && 0 <= i < |ts|
    ensures TimersIncreasing(ts[..i] + ts[i + 1..])
  {
    var ts' := ts[..i] + ts[i + 1..];
    forall a, b | 0 <= a < b < |ts'| ensures ts'[a].id < ts'[b].id {
      var a0 := if a < i then a else a + 1;
      var b0 := if b < i then b else b + 1;
      assert ts'[a] == ts[a0] && ts'[b] == ts[b0];
    }
  }

  lemma FireInv(s: State, i: int)
    requires Inv(s) && 0 <= i < |s.timers|
    ensures Inv(Fire(s, i).state)
  {
    var x := s.timers[i];
    var s' := Fire(s, i).state;
    DeleteByIdValid(s.store, x.id);
    RemoveTimerIncreasing(s.timers, i);
    forall j | 0 <= j < |s'.timers| ensures 1 <= s'.timers[j].id <= s'.store.lastId {
      assert s'.timers[j] == s.timers[if j < i then j else j + 1];
    }
    forall r | r in s'.store.rows
      ensures exists t :: t in s'.timers && t.id == r.id && t.event == r.event
    {
      assert r in s.store.rows && r.id != x.id;
      var t :| t in s.timers && t.id == r.id && t.event == r.event;
      var j :| 0 <= j < |s.timers| && s.timers[j] == t;
      assert j != i;
      assert t in s'.timers;
    }
  }

  // ---------------------------------------------------------------------------
  // Properties of single steps

  /** A message the pattern rejects gets only the hint and stores nothing. */
  lemma RejectStoresNothing(s: State, text: string, now: int)
    requires Parse(text).Failure?
    ensures Create(s, text, now) == Step(s, [FormatHint])
  {
  }

  /** On a table that is not full, exactly one row is added, holding the event
      and the time, under the next id, and one timer is set for that id with the
      delay to that time. The id is above every id the table holds and every id
      a pending timer holds. */
  lemma AcceptStores(s: State, event: string, time: int, delay: int)
    requires Inv(s) && s.store.lastId < MaxRowId
    ensures var id := s.store.lastId + 1;
            && Accept(s, event, time, delay).state.store
               == Store(s.store.rows + [Row(id, event, time)], id)
            && Accept(s, event, time, delay).state.timers
               == s.timers + [Timer(id, event, delay)]
            && (forall r :: r in s.store.rows ==> r.id < id)
            && (forall t :: t in s.timers ==> t.id < id)
  {
    InsertValid(s.store, event, time);
    forall t | t in s.timers ensures t.id < s.store.lastId + 1 {
      var j :| 0 <= j < |s.timers| && s.timers[j] == t;
    }
  }

  /** An accepted command stores its event at the resolved fire time, and the
      timer waits exactly the delay the handler computes. */
  lemma CreateAccepted(s: State, text: string, now: int, req: Request)
    requires Inv(s) && ParseRequest(text) == Success(req) && s.store.lastId < MaxRowId
    ensures Create(s, text, now).state.store.rows
            == s.store.rows + [Row(s.store.lastId + 1, req.event, Resolve(req, now))]
    ensures Create(s, text, now).state.timers
            == s.timers + [Timer(s.store.lastId + 1, req.event, Delay(req, now))]
  {
    var time, delay := Resolve(req, now), Delay(req, now);
    assert Create(s, text, now) == Accept(s, req.event, time, delay);
    AcceptStores(s, req.event, time, delay);
  }

  /** Once the table has issued the largest rowid, an accepted command still
      gets `Готово! ✔️` but nothing is stored and no timer is set. */
  lemma AcceptWhenFull(s: State, event: string, time: int, delay: int)
    requires Inv(s) && s.store.lastId == MaxRowId
    ensures Accept(s, event, time, delay) == Step(s, [Done])
  {
    InsertValid(s.store, event, time);
  }

  /** When no row has the event text, the table is unchanged and the not-found
      reply is sent; otherwise the success reply is sent. */
  lemma DeleteByNameReplies(s: State, name: string)
    ensures (forall r :: r in s.store.rows ==> r.event != name)
            <==> DeleteByName(s, name) == Step(s, [NotFound(name)])
    ensures (exists r :: r in s.store.rows && r.event == name)
            <==> DeleteByName(s, name).replies == [Deleted(name)]
  {
    var n := |"Напоминание \"" + name + "\" "|;
    assert NotFound(name)[n] == 'н' && Deleted(name)[n] == 'у';
    match FirstWithEvent(s.store.rows, name)
    case None =>
    case Some(k) =>
      assert s.store.rows[k] in s.store.rows;
  }

  /** When some row has the event text, exactly one row is deleted: the first
      such row, and every other row stays where it was. */
  lemma DeleteByNameRemovesOne(s: State, name: string)
    requires Inv(s)
    requires exists r :: r in s.store.rows && r.event == name
    ensures exists k :: && 0 <= k < |s.store.rows| && s.store.rows[k].event == name
                        && (forall j :: 0 <= j < k ==> s.store.rows[j].event != name)
                        && DeleteByName(s, name).state.store.rows
                           == s.store.rows[..k] + s.store.rows[k + 1..]
  {
    var r :| r in s.store.rows && r.event == name;
    var j :| 0 <= j < |s.store.rows| && s.store.rows[j] == r;
    var k := FirstWithEvent(s.store.rows, name).value;
    WithoutOne(s.store.rows, k);
  }

  /** A timer whose row is already gone still sends the reminder, and its
      delete leaves the table as it was. */
  lemma FireAfterDelete(s: State, i: int)
    requires 0 <= i < |s.timers|
    requires forall r :: r in s.store.rows ==> r.id != s.timers[i].id
    ensures Fire(s, i).state.store == s.store
    ensures Fire(s, i).replies == [Reminder(s.timers[i].event)]
  {
    forall j | 0 <= j < |s.store.rows| ensures s.store.rows[j].id != s.timers[i].id {
      assert s.store.rows[j] in s.store.rows;
    }
    WithoutAbsent(s.store.rows, s.timers[i].id);
  }

  /** A timer whose row is still there deletes exactly that row. */
  lemma FireDeletesRow(s: State, i: int, k: int)
    requires Inv(s) && 0 <= i < |s.timers| && 0 <= k < |s.store.rows|
    requires s.store.rows[k].id == s.timers[i].id
    ensures Fire(s, i).state.store.rows == s.store.rows[..k] + s.store.rows[k + 1..]
  {
    WithoutOne(s.store.rows, k);
  }

  /** Once every timer has fired, the table is empty: no row outlives its timer. */
  lemma NoTimersNoRows(s: State)
    requires Inv(s) && s.timers == []
    ensures s.store.rows == []
  {
    if s.store.rows != [] {
      TrackedHasTimer(s.store.rows, s.timers, 0);
    }
  }

  lemma TrackedHasTimer(rows: seq<Row>, ts: seq<Timer>, k: int)
    requires Tracked(rows, ts) && 0 <= k < |rows|
    ensures |ts| > 0
  {
    assert rows[k] in rows;
  }

  // ---------------------------------------------------------------------------
  // Runs

  /** A handler call, already routed by the message patterns, or a timer firing. */
  datatype Action =
    | CreateMsg(text: string, now: int)
    | ListMsg
    | DeleteMsg(name: string)
    | TimerFires(index: nat)

  /** Only a pending timer can fire. */
  predicate Enabled(s: State, a: Action) {
    a.TimerFires? ==> a.index < |s.timers|
  }

  function Apply(s: State, a: Action): Step
    requires Enabled(s, a)
  {
    match a
    case CreateMsg(text, now) => Create(s, text, now)
    case ListMsg => List(s)
    case DeleteMsg(name) => DeleteByName(s, name)
    case TimerFires(i) => Fire(s, i)
  }

  /** The state after a sequence of events; a firing of a timer that is not
      pending is no event and is skipped. */
  function Run(s: State, acts: seq<Action>): State
    decreases |acts|
  {
    if acts == [] then s
    else if Enabled(s, acts[0]) then Run(Apply(s, acts[0]).state, acts[1..])
    else Run(s, acts[1..])
  }

  lemma ApplyInv(s: State, a: Action)
    requires Inv(s) && Enabled(s, a)
    ensures Inv(Apply(s, a).state)
  {
    match a
    case CreateMsg(text, now) => CreateInv(s, text, now);
    case ListMsg =>
    case DeleteMsg(name) => DeleteByNameInv(s, name);
    case TimerFires(i) => FireInv(s, i);
  }

  /** The invariant holds in every state reachable from one where it holds. */
  lemma {:induction false} RunInv(s: State, acts: seq<Action>)
    requires Inv(s)
    ensures Inv(Run(s, acts))
    decreases |acts|
  {
    if acts != [] {
      if Enabled(s, acts[0]) {
        ApplyInv(s, acts[0]);
        RunInv(Apply(s, acts[0]).state, acts[1..]);
      } else {
        RunInv(s, acts[1..]);
      }
    }
  }

  /** No id is issued twice: whatever happens, the counter never goes back, so
      every id issued later is above every id in use now. */
  lemma {:induction false} RunCounterGrows(s: State, acts: seq<Action>)
    ensures s.store.lastId <= Run(s, acts).store.lastId
    decreases |acts|
  {
    if acts != [] {
      if Enabled(s, acts[0]) {
        var s' := Apply(s, acts[0]).state;
        assert s.store.lastId <= s'.store.lastId;
        RunCounterGrows(s', acts[1..]);
      } else {
        RunCounterGrows(s, acts[1..]);
      }
    }
  }

  /** The id `x` has been issued and no pending timer holds it. */
  predicate Retired(s: State, x: int) {
    x <= s.store.lastId && forall t :: t in s.timers ==> t.id != x
  }

  lemma AcceptRetired(s: State, event: string, time: int, delay: int, x: int)
    requires Retired(s, x)
    ensures Retired(Accept(s, event, time, delay).state, x)
  {
    var s' := Accept(s, event, time, delay).state;
    if s' != s {
      var id := Insert(s.store, event, time).value.1;
      assert id > s.store.lastId;
      assert s'.timers == s.timers + [Timer(id, event, delay)];
    }
  }

  lemma FireRetired(s: State, i: int, x: int)
    requires 0 <= i < |s.timers| && Retired(s, x)
    ensures Retired(Fire(s, i).state, x)
  {
  }

  lemma ApplyRetired(s: State, a: Action, x: int)
    requires Enabled(s, a) && Retired(s, x)
    ensures Retired(Apply(s, a).state, x)
  {
    match a
    case CreateMsg(text, now) =>
      if ParseRequest(text).Success? {
        var req := ParseRequest(text).value;
        AcceptRetired(s, req.event, Resolve(req, now), Delay(req, now), x);
      }
    case ListMsg =>
    case DeleteMsg(name) =>
    case TimerFires(i) => FireRetired(s, i, x);
  }

  /** Timer ids are distinct, so cutting one timer out leaves no timer with its id. */
  lemma CutTimerGone(ts: seq<Timer>, i: int)
    requires TimersIncreasing(ts) && 0 <= i < |ts|
    ensures forall t :: t in ts[..i] + ts[i + 1..] ==> t.id != ts[i].id
  {
    var rest := ts[..i] + ts[i + 1..];
    forall t | t in rest ensures t.id != ts[i].id {
      var j :| 0 <= j < |rest| && rest[j] == t;
      var j0 := if j < i then j else j + 1;
      assert t == ts[j0] && j0 != i;
    }
  }

  /** A fired timer's id leaves no pending timer behind. */
  lemma FireRetires(s: State, i: int)
    requires Inv(s) && 0 <= i < |s.timers|
    ensures Retired(Fire(s, i).state, s.timers[i].id)
  {
    CutTimerGone(s.timers, i);
    assert Fire(s, i).state.timers == s.timers[..i] + s.timers[i + 1..];
  }

  /** A reminder is sent at most once: after its timer fires, no later event
      brings back a pending timer with that id. */
  lemma {:induction false} FiredOnce(s: State, i: int, acts: seq<Action>)
    requires Inv(s) && 0 <= i < |s.timers|
    ensures forall t :: t in Run(Fire(s, i).state, acts).timers ==> t.id != s.timers[i].id
  {
    FireRetires(s, i);
    RunRetired(Fire(s, i).state, acts, s.timers[i].id);
  }

  lemma {:induction false} RunRetired(s: State, acts: seq<Action>, x: int)
    requires Retired(s, x)
    ensures Retired(Run(s, acts), x)
    decreases |acts|
  {
    if acts != [] {
      if Enabled(s, acts[0]) {
        ApplyRetired(s, acts[0], x);
        RunRetired(Apply(s, acts[0]).state, acts[1..], x);
      } else {
        RunRetired(s, acts[1..], x);
      }
    }
  }
}
