/** The notification service over its in-memory table
    (job-portal-system/Services/Implementations/NotificationService.cs). Each save is an
    atomic update of the rows; the real-time push is an entry appended to a log of pushes
    delivered. */
module NotificationService {
  import opened NotificationDomain
  import opened NotificationConfiguration
  import opened NotificationQueries

  /** The object pushed with the "ReceiveNotification" event. */
  datatype Payload = Payload(
    id: int,
    title: string,
    message: string,
    kind: NotificationType,
    actionUrl: Option<string>,
    createdAt: int,
    isRead: bool)

  /** One push, addressed to every live connection of `userId`. */
  datatype Push = Push(userId: string, payload: Payload)

  /** The arguments of a creation other than the recipient: what every recipient of an
      administrator fan-out shares. */
  datatype Content = Content(
    title: string,
    message: string,
    kind: NotificationType,
    relatedEntityId: Option<string>,
    actionUrl: Option<string>)

  /** What the outside world supplies to one creation: the clock reading taken for
      `CreatedAt`, and whether the real-time transport accepts the push. */
  datatype Env = Env(now: int, pushSucceeds: bool)

  /** How a creation ends: completed; the save rejected by a column constraint (nothing
      stored, nothing pushed); or the push failed after the save had committed. */
  datatype Status = Completed | SaveFailed | PushFailed

  /** The observable state: the table's rows in insertion order, the next identity
      value, and the pushes delivered so far. */
  datatype State = State(rows: seq<Notification>, nextId: int, pushes: seq<Push>)

  /** A state reached and the way the operation ended. */
  datatype Step = Step(state: State, status: Status)

  /** What every reachable state satisfies: each row meets the column constraints, keys
      are unique, and every key was issued by the identity counter. */
  predicate Invariant(st: State)
  {
    st.nextId >= 1
    && (forall n :: n in st.rows ==> WellFormed(n) && 1 <= n.id < st.nextId)
    && KeysUnique(st.rows)
  }

  /** The record the creation builds before saving it. */
  function Compose(id: int, userId: string, c: Content, now: int): Notification
  {
    NewNotification(now).(id := id, userId := userId, title := c.title, message := c.message,
                          kind := c.kind, relatedEntityId := c.relatedEntityId,
                          actionUrl := c.actionUrl, isRead := false)
  }

  /** Content whose record the table accepts. */
  predicate Storable(c: Content)
  {
    WellFormed(Compose(0, "", c, 0))
  }

  /** Whether a record is accepted depends on its content alone, never on its key, its
      recipient or its timestamp. */
  lemma ComposeStorable(id: int, userId: string, c: Content, now: int)
    ensures WellFormed(Compose(id, userId, c, now)) <==> Storable(c)
    ensures !Compose(id, userId, c, now).isRead
  {
  }

  /** The payload pushed for a saved record. */
  function PayloadOf(n: Notification): Payload
  {
    Payload(n.id, n.title, n.message, n.kind, n.actionUrl, n.createdAt, n.isRead)
  }

  /** `SendNotificationToUserAsync`: the push log after sending `n` to `userId`. */
  function Deliver(pushes: seq<Push>, userId: string, n: Notification, transportOk: bool): seq<Push>
  {
    if transportOk then pushes + [Push(userId, PayloadOf(n))] else pushes
  }

  /** `CreateNotificationAsync`: build the unread record, save it (the identity counter
      supplies its key), then push it to its owner. A push failure escapes after the
      save has committed. */
  function CreateStep(st: State, userId: string, c: Content, env: Env): (r: Step)
    ensures r.status == SaveFailed <==> !Storable(c)
    ensures r.status == SaveFailed ==> r.state == st
    ensures r.status != SaveFailed ==>
              |r.state.rows| == |st.rows| + 1 && r.state.rows[..|st.rows|] == st.rows
              && r.state.rows[|st.rows|].id == st.nextId && r.state.nextId == st.nextId + 1
    ensures r.status == PushFailed <==> Storable(c) && !env.pushSucceeds
  {
    ComposeStorable(st.nextId, userId, c, env.now);
    var n := Compose(st.nextId, userId, c, env.now);
    if !WellFormed(n) then Step(st, SaveFailed)
    else
      Step(State(st.rows + [n], st.nextId + 1, Deliver(st.pushes, userId, n, env.pushSucceeds)),
           if env.pushSucceeds then Completed else PushFailed)
  }

  /** A creation keeps the invariant. */
  lemma CreateStepKeepsInvariant(st: State, userId: string, c: Content, env: Env)
    requires Invariant(st)
    ensures Invariant(CreateStep(st, userId, c, env).state)
  {
    var n := Compose(st.nextId, userId, c, env.now);
    if WellFormed(n) {
      var rows := st.rows + [n];
      forall i, j | 0 <= i < j < |rows| ensures rows[i].id != rows[j].id {
        if j < |st.rows| {
          assert rows[i] == st.rows[i] && rows[j] == st.rows[j];
        } else {
          assert st.rows[i] in st.rows;
        }
      }
    }
  }

  /** A creation whose content the table accepts adds exactly one row, at the end, with
      the arguments as its fields, unread, stamped with the clock reading and keyed by a
      key no existing row has; existing rows are unchanged, the owner gains one unread
      notification and every other user's rows are unchanged. */
  lemma CreateStepAddsOneRecord(st: State, userId: string, c: Content, env: Env)
    requires Invariant(st)
    requires Storable(c)
    ensures var rows := CreateStep(st, userId, c, env).state.rows;
      |rows| == |st.rows| + 1 && rows[..|st.rows|] == st.rows
      && rows[|st.rows|].userId == userId && rows[|st.rows|].title == c.title
      && rows[|st.rows|].message == c.message && rows[|st.rows|].kind == c.kind
      && rows[|st.rows|].relatedEntityId == c.relatedEntityId
      && rows[|st.rows|].actionUrl == c.actionUrl
      && !rows[|st.rows|].isRead && rows[|st.rows|].createdAt == env.now
      && (forall m :: m in st.rows ==> m.id != rows[|st.rows|].id)
      && UnreadCount(rows, userId) == UnreadCount(st.rows, userId) + 1
      && (forall other :: other != userId ==> UserRows(rows, other) == UserRows(st.rows, other))
  {
    var n := Compose(st.nextId, userId, c, env.now);
    ComposeStorable(st.nextId, userId, c, env.now);
    var rows := CreateStep(st, userId, c, env).state.rows;
    assert rows == st.rows + [n];
    UnreadCountAppend(st.rows, n, userId);
    forall other | other != userId ensures UserRows(rows, other) == UserRows(st.rows, other) {
      UnreadCountAppend(st.rows, n, other);
    }
  }

  /** After a saved creation exactly one push is attempted, addressed to the owner and
      carrying the saved record's key, title, message, category, action URL, timestamp
      and unread state; it is delivered when the transport accepts it, and otherwise the
      creation ends in a push failure with the row kept. */
  lemma CreateStepPushesOnce(st: State, userId: string, c: Content, env: Env)
    requires Storable(c)
    ensures var step := CreateStep(st, userId, c, env);
      var n := step.state.rows[|st.rows|];
      |step.state.rows| == |st.rows| + 1
      && (env.pushSucceeds ==>
            step.status == Completed
            && step.state.pushes == st.pushes + [Push(userId, Payload(n.id, c.title, c.message, c.kind, c.actionUrl, env.now, false))])
      && (!env.pushSucceeds ==> step.status == PushFailed && step.state.pushes == st.pushes)
  {
    ComposeStorable(st.nextId, userId, c, env.now);
  }

  /** A creation whose content breaks a column constraint fails at the save and changes
      nothing: no row, no key issued, no push. */
  lemma CreateStepRejected(st: State, userId: string, c: Content, env: Env)
    requires !Storable(c)
    ensures CreateStep(st, userId, c, env) == Step(st, SaveFailed)
  {
    ComposeStorable(st.nextId, userId, c, env.now);
  }

  /** A creation stamped later than every other row of its owner is what the owner's
      recent query with count 1 returns, unread. */
  lemma CreateThenRecent(st: State, userId: string, c: Content, env: Env, r: seq<Notification>)
    requires Storable(c)
    requires forall m :: m in st.rows && m.userId == userId ==> m.createdAt < env.now
    requires IsRecentResult(CreateStep(st, userId, c, env).state.rows, userId, 1, r)
    ensures |r| == 1 && r[0] == Compose(st.nextId, userId, c, env.now) && !r[0].isRead
  {
    var n := Compose(st.nextId, userId, c, env.now);
    ComposeStorable(st.nextId, userId, c, env.now);
    NewestRowComesFirst(st.rows, n, r);
  }

  /** `CreateAdminNotificationAsync`: one creation per administrator, in list order; the
      first failure escapes and the remaining administrators are skipped. */
  function FanOut(st: State, admins: seq<string>, c: Content, envs: seq<Env>): (r: Step)
    requires |envs| == |admins|
    ensures |st.rows| <= |r.state.rows| <= |st.rows| + |admins|
    ensures r.state.rows[..|st.rows|] == st.rows
    ensures r.state.nextId == st.nextId + (|r.state.rows| - |st.rows|)
    ensures r.status == Completed ==> |r.state.rows| == |st.rows| + |admins|
    decreases |admins|
  {
    if admins == [] then Step(st, Completed)
    else
      var first := CreateStep(st, admins[0], c, envs[0]);
      if first.status != Completed then first
      else FanOut(first.state, admins[1..], c, envs[1..])
  }

  /** The records a fan-out saves for `admins`, keyed from `firstId` upwards. */
  function FanOutRecords(firstId: int, admins: seq<string>, c: Content, envs: seq<Env>): seq<Notification>
    requires |envs| == |admins|
  {
    seq(|admins|, k requires 0 <= k < |admins| => Compose(firstId + k, admins[k], c, envs[k].now))
  }

  /** The pushes that deliver `records` to their owners. */
  function PushesFor(records: seq<Notification>): seq<Push>
  {
    seq(|records|, k requires 0 <= k < |records| => Push(records[k].userId, PayloadOf(records[k])))
  }

  /** A fan-out extends the records of its first creation by those of the rest. */
  lemma FanOutRecordsCons(firstId: int, admins: seq<string>, c: Content, envs: seq<Env>)
    requires |envs| == |admins| > 0
    ensures FanOutRecords(firstId, admins, c, envs)
            == [Compose(firstId, admins[0], c, envs[0].now)] + FanOutRecords(firstId + 1, admins[1..], c, envs[1..])
    ensures PushesFor(FanOutRecords(firstId, admins, c, envs))
            == [Push(admins[0], PayloadOf(Compose(firstId, admins[0], c, envs[0].now)))]
               + PushesFor(FanOutRecords(firstId + 1, admins[1..], c, envs[1..]))
  {
  }

  /** When every push goes through, a fan-out of accepted content saves exactly one
      record per administrator, in list order, with consecutive keys and the shared
      content, and pushes each record to its owner. An empty list saves nothing. */
  lemma {:induction false} FanOutAllDelivered(st: State, admins: seq<string>, c: Content, envs: seq<Env>)
    requires |envs| == |admins|
    requires Storable(c)
    requires forall k :: 0 <= k < |envs| ==> envs[k].pushSucceeds
    ensures var step := FanOut(st, admins, c, envs);
      step.status == Completed
      && step.state.rows == st.rows + FanOutRecords(st.nextId, admins, c, envs)
      && step.state.nextId == st.nextId + |admins|
      && step.state.pushes == st.pushes + PushesFor(FanOutRecords(st.nextId, admins, c, envs))
    decreases |admins|
  {
    if admins != [] {
      var first := CreateStep(st, admins[0], c, envs[0]);
      ComposeStorable(st.nextId, admins[0], c, envs[0].now);
      assert envs[0].pushSucceeds;
      FanOutAllDelivered(first.state, admins[1..], c, envs[1..]);
      FanOutRecordsCons(st.nextId, admins, c, envs);
    }
  }

  /** When the push to the administrator at position `f` is the first to fail, the
      fan-out ends in that push failure: the records of the first `f + 1` administrators
      are saved, the first `f` of them pushed, and the rest of the list is skipped. */
  lemma {:induction false} FanOutStopsAtPushFailure(st: State, admins: seq<string>, c: Content, envs: seq<Env>, f: nat)
    requires |envs| == |admins|
    requires Storable(c)
    requires f < |admins| && !envs[f].pushSucceeds
    requires forall k :: 0 <= k < f ==> envs[k].pushSucceeds
    ensures var step := FanOut(st, admins, c, envs);
      step.status == PushFailed
      && step.state.rows == st.rows + FanOutRecords(st.nextId, admins[..f + 1], c, envs[..f + 1])
      && step.state.pushes == st.pushes + PushesFor(FanOutRecords(st.nextId, admins[..f], c, envs[..f]))
    decreases f
  {
    var first := CreateStep(st, admins[0], c, envs[0]);
    ComposeStorable(st.nextId, admins[0], c, envs[0].now);
    if f == 0 {
      assert FanOutRecords(st.nextId, admins[..1], c, envs[..1]) == [first.state.rows[|st.rows|]];
    } else {
      assert envs[0].pushSucceeds;
      FanOutStopsAtPushFailure(first.state, admins[1..], c, envs[1..], f - 1);
      FanOutRecordsCons(st.nextId, admins[..f + 1], c, envs[..f + 1]);
      FanOutRecordsCons(st.nextId, admins[..f], c, envs[..f]);
      assert admins[..f + 1][1..] == admins[1..][..f];
      assert envs[..f + 1][1..] == envs[1..][..f];
      assert admins[..f][1..] == admins[1..][..f - 1];
      assert envs[..f][1..] == envs[1..][..f - 1];
    }
  }

  /** An empty administrator list saves nothing, pushes nothing and does not fail. */
  lemma FanOutEmptyList(st: State, c: Content)
    ensures FanOut(st, [], c, []) == Step(st, Completed)
  {
  }

  /** A fan-out of content the table rejects fails at the first save and changes nothing;
      since every administrator shares the content, no administrator gets a record. */
  lemma FanOutRejected(st: State, admins: seq<string>, c: Content, envs: seq<Env>)
    requires |envs| == |admins| > 0
    requires !Storable(c)
    ensures FanOut(st, admins, c, envs) == Step(st, SaveFailed)
  {
    CreateStepRejected(st, admins[0], c, envs[0]);
  }

  /** A fan-out keeps the invariant, however it ends. */
  lemma {:induction false} FanOutKeepsInvariant(st: State, admins: seq<string>, c: Content, envs: seq<Env>)
    requires |envs| == |admins|
    requires Invariant(st)
    ensures Invariant(FanOut(st, admins, c, envs).state)
    decreases |admins|
  {
    if admins != [] {
      var first := CreateStep(st, admins[0], c, envs[0]);
      CreateStepKeepsInvariant(st, admins[0], c, envs[0]);
      if first.status == Completed {
        FanOutKeepsInvariant(first.state, admins[1..], c, envs[1..]);
      }
    }
  }

  /** Both read-state updates keep the invariant. */
  lemma MarkingKeepsInvariant(st: State, id: int, userId: string)
    requires Invariant(st)
    ensures Invariant(st.(rows := MarkOne(st.rows, id)))
    ensures Invariant(st.(rows := MarkAll(st.rows, userId)))
  {
    MarkingKeepsRowsStorable(st.rows, id, userId);
    forall n | n in MarkOne(st.rows, id) ensures 1 <= n.id < st.nextId {
      var i :| 0 <= i < |st.rows| && MarkOne(st.rows, id)[i] == n;
      assert st.rows[i] in st.rows;
    }
    forall n | n in MarkAll(st.rows, userId) ensures 1 <= n.id < st.nextId {
      var i :| 0 <= i < |st.rows| && MarkAll(st.rows, userId)[i] == n;
      assert st.rows[i] in st.rows;
    }
  }

  /** The notification service and the table it owns. */
  class NotificationService {
    var rows: seq<Notification>
    var nextId: int
    ghost var pushes: seq<Push>

    ghost function Current(): State
      reads this
    {
      State(rows, nextId, pushes)
    }

    ghost predicate Valid()
      reads this
    {
      Invariant(Current())
    }

    /** An empty table whose identity counter starts at 1. */
    constructor ()
      ensures Valid()
      ensures rows == [] && nextId == 1 && pushes == []
    {
      rows := [];
      nextId := 1;
      pushes := [];
    }

    /** `SendNotificationToUserAsync`: push `n` to every connection of `userId`. */
    method SendNotificationToUser(userId: string, n: Notification, transportOk: bool) returns (status: Status)
      modifies this`pushes
      ensures pushes == Deliver(old(pushes), userId, n, transportOk)
      ensures status == if transportOk then Completed else PushFailed
    {
      if transportOk {
        pushes := pushes + [Push(userId, PayloadOf(n))];
        status := Completed;
      } else {
        status := PushFailed;
      }
    }

    /** `CreateNotificationAsync`. */
    method CreateNotification(env: Env, userId: string, title: string, message: string, kind: NotificationType,
                              relatedEntityId: Option<string> := None, actionUrl: Option<string> := None)
      returns (status: Status)
      requires Valid()
      modifies this
      ensures Valid()
      ensures Step(Current(), status)
              == CreateStep(old(Current()), userId, Content(title, message, kind, relatedEntityId, actionUrl), env)
    {
      CreateStepKeepsInvariant(Current(), userId, Content(title, message, kind, relatedEntityId, actionUrl), env);
      var n := Compose(nextId, userId, Content(title, message, kind, relatedEntityId, actionUrl), env.now);
      if !WellFormed(n) {
        status := SaveFailed;
        return;
      }
      rows := rows + [n];
      nextId := nextId + 1;
      status := SendNotificationToUser(userId, n, env.pushSucceeds);
    }

    /** `CreateAdminNotificationAsync`, given the administrators' ids and, for each of
        them, what the outside world supplies to that creation. */
    method CreateAdminNotification(admins: seq<string>, envs: seq<Env>, title: string, message: string,
                                   kind: NotificationType,
                                   relatedEntityId: Option<string> := None, actionUrl: Option<string> := None)
      returns (status: Status)
      requires Valid()
      requires |envs| == |admins|
      modifies this
      ensures Valid()
      ensures Step(Current(), status)
              == FanOut(old(Current()), admins, Content(title, message, kind, relatedEntityId, actionUrl), envs)
    {
      ghost var c := Content(title, message, kind, relatedEntityId, actionUrl);
      status := Completed;
      var k := 0;
      while k < |admins|
        invariant 0 <= k <= |admins|
        invariant Valid()
        invariant FanOut(old(Current()), admins, c, envs) == FanOut(Current(), admins[k..], c, envs[k..])
      {
        assert admins[k..][0] == admins[k] && envs[k..][0] == envs[k];
        assert admins[k..][1..] == admins[k + 1..] && envs[k..][1..] == envs[k + 1..];
        var s := CreateNotification(envs[k], admins[k], title, message, kind, relatedEntityId, actionUrl);
        if s != Completed {
          status := s;
          return;
        }
        k := k + 1;
      }
    }

    /** `GetUserNotificationsAsync`: the user's `count` most recent notifications. */
    method GetUserNotifications(userId: string, count: int := 10) returns (result: seq<Notification>)
      ensures IsRecentResult(rows, userId, count, result)
      ensures forall n :: n in result ==> n in rows && n.userId == userId
    {
      result := Take(OrderByNewest(UserRows(rows, userId)), count);
      RecentQueryIsRecent(rows, userId, count);
      RecentResultOwnedByUser(rows, userId, count, result);
    }

    /** `GetUnreadCountAsync`: how many of the user's notifications are unread. */
    method GetUnreadCount(userId: string) returns (count: nat)
      ensures count == UnreadCount(rows, userId)
      ensures count == 0 <==> forall i :: 0 <= i < |rows| && rows[i].userId == userId ==> rows[i].isRead
    {
      count := UnreadCount(rows, userId);
      UnreadCountZero(rows, userId);
    }

    /** `MarkAsReadAsync`: mark the notification keyed `id` read, if it exists. */
    method MarkAsRead(id: int)
      requires Valid()
      modifies this
      ensures Valid()
      ensures rows == MarkOne(old(rows), id)
      ensures nextId == old(nextId) && pushes == old(pushes)
    {
      MarkingKeepsInvariant(Current(), id, "");
      var found := FindById(rows, id);
      if found.Some? {
        var i := found.value;
        rows := rows[i := rows[i].(isRead := true)];
        forall j | 0 <= j < |rows| && j != i ensures old(rows)[j].id != id {
          assert old(rows)[j].id != old(rows)[i].id;
        }
      } else {
        MarkOneUnknownId(rows, id);
      }
    }

    /** `MarkAllAsReadAsync`: load the user's unread notifications, mark each read, and
        save them together. */
    method MarkAllAsRead(userId: string)
      requires Valid()
      modifies this
      ensures Valid()
      ensures rows == MarkAll(old(rows), userId)
      ensures nextId == old(nextId) && pushes == old(pushes)
    {
      MarkingKeepsInvariant(Current(), 0, userId);
      var pending := UnreadPositions(rows, userId);
      var k := 0;
      while k < |pending|
        invariant 0 <= k <= |pending|
        invariant pending == UnreadPositions(old(rows), userId)
        invariant nextId == old(nextId) && pushes == old(pushes)
        invariant MarkedAt(old(rows), rows, pending[..k])
      {
        var i := pending[k];
        assert i in pending;
        MarkPosition(old(rows), rows, pending[..k], i);
        rows := rows[i := rows[i].(isRead := true)];
        assert pending[..k + 1] == pending[..k] + [i];
        k := k + 1;
      }
      assert pending[..k] == pending;
      MarkedUnreadPositions(old(rows), rows, userId);
    }
  }
}
