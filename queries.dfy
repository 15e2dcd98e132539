/** The queries the notification service runs against the Notifications table, and the
    effect of its two read-state updates, as functions of the table's rows
    (job-portal-system/Services/Implementations/NotificationService.cs). Rows are kept in
    insertion order. */
module NotificationQueries {
  import opened NotificationDomain
  import opened NotificationConfiguration

  /** `Where(n => n.UserId == userId)`: the user's rows, in table order. */
  function UserRows(rows: seq<Notification>, userId: string): (r: seq<Notification>)
    ensures |r| <= |rows|
    ensures forall n :: n in r <==> n in rows && n.userId == userId
    ensures multiset(r) <= multiset(rows)
  {
    if rows == [] then []
    else
      var last := rows[|rows| - 1];
      assert rows == rows[..|rows| - 1] + [last];
      UserRows(rows[..|rows| - 1], userId) + (if last.userId == userId then [last] else [])
  }

  /** `Where(n => n.UserId == userId && !n.IsRead).Count()`. */
  function UnreadCount(rows: seq<Notification>, userId: string): nat
  {
    if rows == [] then 0
    else
      var last := rows[|rows| - 1];
      UnreadCount(rows[..|rows| - 1], userId) + (if last.userId == userId && !last.isRead then 1 else 0)
  }

  /** A user never has more unread notifications than notifications. */
  lemma {:induction false} UnreadCountBound(rows: seq<Notification>, userId: string)
    ensures UnreadCount(rows, userId) <= |UserRows(rows, userId)|
  {
    if rows != [] {
      UnreadCountBound(rows[..|rows| - 1], userId);
    }
  }

  /** The positions of the user's unread rows, ascending: the list the mark-all update
      loads before changing it. */
  function UnreadPositions(rows: seq<Notification>, userId: string): (ps: seq<nat>)
    ensures forall i :: i in ps ==> i < |rows|
    ensures forall i :: 0 <= i < |rows| ==> (i in ps <==> rows[i].userId == userId && !rows[i].isRead)
  {
    if rows == [] then []
    else
      var k := |rows| - 1;
      UnreadPositions(rows[..k], userId) + (if rows[k].userId == userId && !rows[k].isRead then [k] else [])
  }

  /** The mark-all update loads exactly as many rows as the unread count counts. */
  lemma {:induction false} UnreadPositionsCount(rows: seq<Notification>, userId: string)
    ensures |UnreadPositions(rows, userId)| == UnreadCount(rows, userId)
  {
    if rows != [] {
      UnreadPositionsCount(rows[..|rows| - 1], userId);
    }
  }

  /** A user has no unread notification exactly when every row of theirs is read. */
  lemma {:induction false} UnreadCountZero(rows: seq<Notification>, userId: string)
    ensures UnreadCount(rows, userId) == 0 <==>
            forall i :: 0 <= i < |rows| && rows[i].userId == userId ==> rows[i].isRead
  {
    if rows != [] {
      var k := |rows| - 1;
      UnreadCountZero(rows[..k], userId);
      assert forall i :: 0 <= i < k ==> rows[..k][i] == rows[i];
    }
  }

  /** Appending a row adds one to its owner's unread count when it is unread, and leaves
      every count unchanged otherwise. */
  lemma UnreadCountAppend(rows: seq<Notification>, n: Notification, userId: string)
    ensures UnreadCount(rows + [n], userId) ==
            UnreadCount(rows, userId) + (if n.userId == userId && !n.isRead then 1 else 0)
    ensures UserRows(rows + [n], userId) ==
            UserRows(rows, userId) + (if n.userId == userId then [n] else [])
  {
    assert (rows + [n])[..|rows|] == rows;
  }

  /** Newest first: `CreatedAt` never increases along the sequence. */
  predicate NewestFirst(s: seq<Notification>)
  {
    forall i, j :: 0 <= i < j < |s| ==> s[i].createdAt >= s[j].createdAt
  }

  /** A row no older than any row of a newest-first sequence can head it. */
  lemma PrependNewest(h: Notification, s: seq<Notification>)
    requires NewestFirst(s)
    requires forall x :: x in s ==> x.createdAt <= h.createdAt
    ensures NewestFirst([h] + s)
  {
    forall i, j | 0 <= i < j < |[h] + s| ensures ([h] + s)[i].createdAt >= ([h] + s)[j].createdAt {
      if i == 0 { assert ([h] + s)[j] in s; }
    }
  }

  /** The head of a newest-first sequence is no older than any of its rows. */
  lemma HeadIsNewest(s: seq<Notification>)
    requires NewestFirst(s)
    ensures s != [] ==> forall x :: x in s ==> x.createdAt <= s[0].createdAt
  {
    forall x | x in s ensures x.createdAt <= s[0].createdAt {
      var j :| 0 <= j < |s| && s[j] == x;
    }
  }

  /** Rows drawn from the tail of a newest-first sequence, plus one row older than its
      head, are all no newer than its head. */
  lemma BelowHead(s: seq<Notification>, n: Notification, rest: seq<Notification>)
    requires NewestFirst(s) && s != []
    requires n.createdAt < s[0].createdAt
    requires multiset(rest) == multiset(s[1..]) + multiset{n}
    ensures forall x :: x in rest ==> x.createdAt <= s[0].createdAt
  {
    HeadIsNewest(s);
    forall x | x in rest ensures x.createdAt <= s[0].createdAt {
      assert x in multiset(rest);
      if x != n {
        assert x in s[1..];
      }
    }
  }

  /** Inserts `n` into a newest-first sequence, before the first row not newer than it. */
  function InsertByDate(n: Notification, s: seq<Notification>): (r: seq<Notification>)
    requires NewestFirst(s)
    ensures NewestFirst(r)
    ensures multiset(r) == multiset(s) + multiset{n}
  {
    if s == [] || n.createdAt >= s[0].createdAt then
      HeadIsNewest(s);
      PrependNewest(n, s);
      [n] + s
    else
      var rest := InsertByDate(n, s[1..]);
      BelowHead(s, n, rest);
      PrependNewest(s[0], rest);
      assert s == [s[0]] + s[1..];
      [s[0]] + rest
  }

  /** `OrderByDescending(n => n.CreatedAt)`: a newest-first arrangement of the rows. The
      relative order of rows with equal `CreatedAt` is one admissible choice; the query
      promises none. */
  function OrderByNewest(s: seq<Notification>): (r: seq<Notification>)
    ensures NewestFirst(r)
    ensures multiset(r) == multiset(s)
  {
    if s == [] then []
    else
      assert s == [s[0]] + s[1..];
      InsertByDate(s[0], OrderByNewest(s[1..]))
  }

  /** `Take(count)`: the first `count` elements, none for a count below one. */
  function Take(s: seq<Notification>, count: int): (r: seq<Notification>)
    ensures |r| == (if count <= 0 then 0 else if count >= |s| then |s| else count)
    ensures r == s[..|r|]
  {
    if count <= 0 then [] else if count >= |s| then s else s[..count]
  }

  /** No candidate left out of `r` is newer than any row in `r`. */
  ghost predicate NoneNewerLeftOut(candidates: seq<Notification>, r: seq<Notification>)
  {
    forall x: Notification, i :: x in multiset(candidates) - multiset(r) && 0 <= i < |r| ==> x.createdAt <= r[i].createdAt
  }

  /** `r` is a selection of `count` newest rows of `candidates`: drawn from them, as
      many as `count` allows, newest first, and no candidate left out is newer than any
      row selected. */
  ghost predicate IsNewestSelection(candidates: seq<Notification>, count: int, r: seq<Notification>)
  {
    multiset(r) <= multiset(candidates)
    && |r| == (if count <= 0 then 0 else if count >= |candidates| then |candidates| else count)
    && NewestFirst(r)
    && NoneNewerLeftOut(candidates, r)
  }

  /** What the recent-notifications query may return for a user. */
  ghost predicate IsRecentResult(rows: seq<Notification>, userId: string, count: int, r: seq<Notification>)
  {
    IsNewestSelection(UserRows(rows, userId), count, r)
  }

  /** Cutting a newest-first arrangement of the candidates anywhere leaves out nothing
      newer than what it keeps. */
  lemma PrefixLeavesNoneNewer(candidates: seq<Notification>, sorted: seq<Notification>, k: nat)
    requires NewestFirst(sorted)
    requires multiset(sorted) == multiset(candidates)
    requires k <= |sorted|
    ensures NoneNewerLeftOut(candidates, sorted[..k])
  {
    var r := sorted[..k];
    assert sorted == r + sorted[k..];
    assert multiset(candidates) - multiset(r) == multiset(sorted[k..]);
    forall x: Notification, i | x in multiset(candidates) - multiset(r) && 0 <= i < |r|
      ensures x.createdAt <= r[i].createdAt
    {
      assert x in sorted[k..];
      var j :| k <= j < |sorted| && sorted[j] == x;
      assert r[i] == sorted[i];
    }
  }

  /** A prefix of a permutation of the candidates is drawn from them, and a prefix of
      a newest-first sequence is newest first. */
  lemma PrefixIsDrawn(candidates: seq<Notification>, sorted: seq<Notification>, k: nat)
    requires multiset(sorted) == multiset(candidates)
    requires k <= |sorted|
    ensures |sorted| == |candidates|
    ensures multiset(sorted[..k]) <= multiset(candidates)
    ensures NewestFirst(sorted) ==> NewestFirst(sorted[..k])
  {
    assert |multiset(sorted)| == |sorted| && |multiset(candidates)| == |candidates|;
    assert sorted == sorted[..k] + sorted[k..];
  }

  /** Any prefix of a newest-first arrangement of the candidates, of the length the
      count allows, is a newest selection. */
  lemma NewestPrefixIsSelection(candidates: seq<Notification>, count: int, sorted: seq<Notification>)
    requires NewestFirst(sorted)
    requires multiset(sorted) == multiset(candidates)
    ensures IsNewestSelection(candidates, count, Take(sorted, count))
  {
    var k := if count <= 0 then 0 else if count >= |sorted| then |sorted| else count;
    PrefixIsDrawn(candidates, sorted, k);
    PrefixLeavesNoneNewer(candidates, sorted, k);
    assert Take(sorted, count) == sorted[..k];
  }

  /** The query as composed (filter, order newest first, take) returns a recent result. */
  lemma RecentQueryIsRecent(rows: seq<Notification>, userId: string, count: int)
    ensures IsRecentResult(rows, userId, count, Take(OrderByNewest(UserRows(rows, userId)), count))
  {
    NewestPrefixIsSelection(UserRows(rows, userId), count, OrderByNewest(UserRows(rows, userId)));
  }

  /** Every row a recent result holds belongs to the user. */
  lemma RecentResultOwnedByUser(rows: seq<Notification>, userId: string, count: int, r: seq<Notification>)
    requires IsRecentResult(rows, userId, count, r)
    ensures forall n :: n in r ==> n in rows && n.userId == userId
  {
    var mine := UserRows(rows, userId);
    forall n | n in r ensures n in rows && n.userId == userId {
      assert n in multiset(r);
      assert n in multiset(mine);
    }
  }

  /** A candidate is either the one row selected or left out of that selection. */
  lemma LeftOutUnlessSelected(candidates: seq<Notification>, n: Notification, x: Notification)
    requires n in candidates
    ensures x == n || n in multiset(candidates) - multiset{x}
  {
    assert n in multiset(candidates);
  }

  /** A row appended with a strictly later `CreatedAt` than every other row of its owner is
      the one result of that owner's recent query with count 1. */
  lemma NewestRowComesFirst(rows: seq<Notification>, n: Notification, r: seq<Notification>)
    requires forall m :: m in rows && m.userId == n.userId ==> m.createdAt < n.createdAt
    requires IsRecentResult(rows + [n], n.userId, 1, r)
    ensures r == [n]
  {
    var before := UserRows(rows, n.userId);
    var mine := UserRows(rows + [n], n.userId);
    assert mine == before + [n] by {
      UnreadCountAppend(rows, n, n.userId);
    }
    assert |r| == 1;
    var x := r[0];
    assert r == [x];
    assert x == n || n.createdAt <= x.createdAt by {
      assert n in mine;
      LeftOutUnlessSelected(mine, n, x);
      assert multiset(r) == multiset{x};
      assert NoneNewerLeftOut(mine, r);
    }
    assert x == n || x.createdAt < n.createdAt by {
      assert x in multiset(r);
      assert x in multiset(mine);
      assert x in before + [n];
      assert x == n || x in before;
    }
  }

  /** `FindAsync(id)` on the primary key: the position of the row keyed `id`, if any. */
  function FindById(rows: seq<Notification>, id: int): (r: Option<nat>)
    ensures r.Some? ==> r.value < |rows| && rows[r.value].id == id
    ensures r.None? ==> forall n :: n in rows ==> n.id != id
  {
    if rows == [] then None
    else if rows[|rows| - 1].id == id then Some(|rows| - 1)
    else
      assert rows == rows[..|rows| - 1] + [rows[|rows| - 1]];
      FindById(rows[..|rows| - 1], id)
  }

  /** `MarkAsReadAsync`'s effect: the row keyed `id`, if any, becomes read. */
  function MarkOne(rows: seq<Notification>, id: int): seq<Notification>
  {
    seq(|rows|, i requires 0 <= i < |rows| => if rows[i].id == id then rows[i].(isRead := true) else rows[i])
  }

  /** `MarkAllAsReadAsync`'s effect: every row of the user becomes read. */
  function MarkAll(rows: seq<Notification>, userId: string): seq<Notification>
  {
    seq(|rows|, i requires 0 <= i < |rows| => if rows[i].userId == userId then rows[i].(isRead := true) else rows[i])
  }

  /** Marking an unknown id changes nothing. */
  lemma MarkOneUnknownId(rows: seq<Notification>, id: int)
    requires forall n :: n in rows ==> n.id != id
    ensures MarkOne(rows, id) == rows
  {
    assert forall i :: 0 <= i < |rows| ==> rows[i] in rows;
  }

  /** Marking one notification twice has the effect of marking it once. */
  lemma MarkOneIdempotent(rows: seq<Notification>, id: int)
    ensures MarkOne(MarkOne(rows, id), id) == MarkOne(rows, id)
  {
  }

  /** Marking one notification changes only the `IsRead` of the row keyed `id`. */
  lemma MarkOneFrame(rows: seq<Notification>, id: int)
    ensures |MarkOne(rows, id)| == |rows|
    ensures forall i :: 0 <= i < |rows| && rows[i].id != id ==> MarkOne(rows, id)[i] == rows[i]
    ensures forall i :: 0 <= i < |rows| ==> MarkOne(rows, id)[i].(isRead := rows[i].isRead) == rows[i]
    ensures forall i :: 0 <= i < |rows| && rows[i].id == id ==> MarkOne(rows, id)[i].isRead
  {
  }

  /** Marking a table extended by one row marks the old rows and the new row alike. */
  lemma MarkOneAppend(rows: seq<Notification>, n: Notification, id: int)
    ensures MarkOne(rows + [n], id) == MarkOne(rows, id) + [if n.id == id then n.(isRead := true) else n]
  {
  }

  /** The unread count after marking a table extended by one row. */
  lemma MarkOneAppendCount(prefix: seq<Notification>, last: Notification, id: int, userId: string)
    ensures var marked := if last.id == id then last.(isRead := true) else last;
      UnreadCount(MarkOne(prefix + [last], id), userId)
      == UnreadCount(MarkOne(prefix, id), userId) + (if marked.userId == userId && !marked.isRead then 1 else 0)
  {
    var marked := if last.id == id then last.(isRead := true) else last;
    MarkOneAppend(prefix, last, id);
    UnreadCountAppend(MarkOne(prefix, id), marked, userId);
  }

  /** With unique keys, marking the notification at position `i` lowers its owner's
      unread count by one when it was unread, and leaves every other count unchanged. */
  lemma {:induction false} MarkOneUnreadCount(rows: seq<Notification>, i: nat, userId: string)
    requires KeysUnique(rows)
    requires i < |rows|
    ensures UnreadCount(MarkOne(rows, rows[i].id), userId) ==
            UnreadCount(rows, userId) - (if rows[i].userId == userId && !rows[i].isRead then 1 else 0)
  {
    var id := rows[i].id;
    var k := |rows| - 1;
    var prefix, last := rows[..k], rows[k];
    var marked := if last.id == id then last.(isRead := true) else last;
    assert UnreadCount(MarkOne(rows, id), userId)
           == UnreadCount(MarkOne(prefix, id), userId) + (if marked.userId == userId && !marked.isRead then 1 else 0) by {
      assert rows == prefix + [last];
      MarkOneAppendCount(prefix, last, id, userId);
    }
    assert UnreadCount(rows, userId)
           == UnreadCount(prefix, userId) + (if last.userId == userId && !last.isRead then 1 else 0) by {
      assert rows == prefix + [last];
      UnreadCountAppend(prefix, last, userId);
    }
    if i == k {
      assert MarkOne(prefix, id) == prefix by {
        forall n | n in prefix ensures n.id != id {
          var j :| 0 <= j < k && prefix[j] == n;
          assert rows[j].id != rows[k].id;
        }
        MarkOneUnknownId(prefix, id);
      }
    } else {
      assert last.id != id by { assert rows[i].id != rows[k].id; }
      assert UnreadCount(MarkOne(prefix, id), userId)
             == UnreadCount(prefix, userId) - (if rows[i].userId == userId && !rows[i].isRead then 1 else 0) by {
        assert KeysUnique(prefix);
        assert prefix[i] == rows[i];
        MarkOneUnreadCount(prefix, i, userId);
      }
    }
  }

  /** After marking all of a user's notifications, the user has none unread. */
  lemma MarkAllClearsUnread(rows: seq<Notification>, userId: string)
    ensures UnreadCount(MarkAll(rows, userId), userId) == 0
  {
    UnreadCountZero(MarkAll(rows, userId), userId);
  }

  /** Marking all of one user's notifications leaves every other user's rows, and so
      their unread counts, unchanged. */
  lemma {:induction false} MarkAllOtherUsers(rows: seq<Notification>, userId: string, other: string)
    requires other != userId
    ensures UnreadCount(MarkAll(rows, userId), other) == UnreadCount(rows, other)
    ensures UserRows(MarkAll(rows, userId), other) == UserRows(rows, other)
  {
    if rows != [] {
      var k := |rows| - 1;
      assert MarkAll(rows, userId)[..k] == MarkAll(rows[..k], userId);
      MarkAllOtherUsers(rows[..k], userId, other);
    }
  }

  /** `rows` is `orig` with exactly the rows at the positions in `marked` made read. */
  ghost predicate MarkedAt(orig: seq<Notification>, rows: seq<Notification>, marked: seq<nat>)
  {
    |rows| == |orig|
    && forall i :: 0 <= i < |rows| ==> rows[i] == if i in marked then orig[i].(isRead := true) else orig[i]
  }

  /** Making one more row read extends the positions marked by that row's. */
  lemma MarkPosition(orig: seq<Notification>, rows: seq<Notification>, marked: seq<nat>, i: nat)
    requires MarkedAt(orig, rows, marked)
    requires i < |rows|
    ensures MarkedAt(orig, rows[i := rows[i].(isRead := true)], marked + [i])
  {
  }

  /** Making read the rows at the user's unread positions marks all of the user's rows. */
  lemma MarkedUnreadPositions(orig: seq<Notification>, rows: seq<Notification>, userId: string)
    requires MarkedAt(orig, rows, UnreadPositions(orig, userId))
    ensures rows == MarkAll(orig, userId)
  {
  }

  /** Marking all is idempotent, and changes only `IsRead` and only on the user's rows. */
  lemma MarkAllFrame(rows: seq<Notification>, userId: string)
    ensures MarkAll(MarkAll(rows, userId), userId) == MarkAll(rows, userId)
    ensures |MarkAll(rows, userId)| == |rows|
    ensures forall i :: 0 <= i < |rows| && rows[i].userId != userId ==> MarkAll(rows, userId)[i] == rows[i]
    ensures forall i :: 0 <= i < |rows| ==> MarkAll(rows, userId)[i].(isRead := rows[i].isRead) == rows[i]
  {
  }

  /** Both read-state updates keep every row well formed and the keys unique. */
  lemma MarkingKeepsRowsStorable(rows: seq<Notification>, id: int, userId: string)
    requires forall n :: n in rows ==> WellFormed(n)
    requires KeysUnique(rows)
    ensures forall n :: n in MarkOne(rows, id) ==> WellFormed(n)
    ensures forall n :: n in MarkAll(rows, userId) ==> WellFormed(n)
    ensures KeysUnique(MarkOne(rows, id)) && KeysUnique(MarkAll(rows, userId))
  {
    forall n | n in MarkOne(rows, id) ensures WellFormed(n) {
      var i :| 0 <= i < |rows| && MarkOne(rows, id)[i] == n;
      assert rows[i] in rows;
    }
    forall n | n in MarkAll(rows, userId) ensures WellFormed(n) {
      var i :| 0 <= i < |rows| && MarkAll(rows, userId)[i] == n;
      assert rows[i] in rows;
    }
  }
}
