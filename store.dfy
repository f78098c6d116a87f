/**
 * The two database tables the socket handlers write: the append-only
 * `messages` log and the `user_conversations` summaries, one row per
 * directed pair (user_id, connected_id) with the last message, its timestamp
 * and the user's unread count for that peer.
 *
 * The summary table is a list of rows; `Table` reads it as the map keyed by
 * the pair that the table's unique constraint makes it.
 */
module Store {
  import opened Domain

  /** A row of `messages`; `sentAt` is filled in by the database on insert. */
  datatype Message = Message(sender: UserId, receiver: UserId, text: string, sentAt: Timestamp)

  /** The non-key columns of a `user_conversations` row. */
  datatype Summary = Summary(lastMessage: string, lastTimestamp: Timestamp, unread: nat)

  /** A `user_conversations` row: `user`'s summary of its chat with `peer`. */
  datatype SummaryRow = SummaryRow(user: UserId, peer: UserId, summary: Summary)

  /** The unread_count action of an upsert: the receiver's row counts one
      more unread message, the sender's row is reset to zero. */
  datatype UnreadUpdate = Increment | Reset

  /** The unique constraint on (user_id, connected_id). */
  ghost predicate UniqueKeys(rows: seq<SummaryRow>)
  {
    forall i, j :: 0 <= i < j < |rows| ==> rows[i].user != rows[j].user || rows[i].peer != rows[j].peer
  }

  /** The table as a map from the directed pair to its summary. */
  ghost function Table(rows: seq<SummaryRow>): map<(UserId, UserId), Summary>
  {
    if rows == [] then map[]
    else Table(rows[1..])[(rows[0].user, rows[0].peer) := rows[0].summary]
  }

  /** The row stored for `key`, if any. */
  ghost function At(t: map<(UserId, UserId), Summary>, key: (UserId, UserId)): Option<Summary>
  {
    if key in t then Some(t[key]) else None
  }

  /** The unread count an upsert leaves behind, given the row it conflicts
      with: a fresh row starts at 1 (Increment) or 0 (Reset); on conflict the
      count is raised by one or reset to zero. */
  function UnreadAfter(prior: Option<Summary>, mode: UnreadUpdate): nat
  {
    match mode
    case Reset => 0
    case Increment => if prior.Some? then prior.value.unread + 1 else 1
  }

  /** Setting two different keys in either order gives the same table. */
  lemma TableUpdateCommute(m: map<(UserId, UserId), Summary>, a: (UserId, UserId), x: Summary,
                           c: (UserId, UserId), y: Summary)
    requires a != c
    ensures m[a := x][c := y] == m[c := y][a := x]
  {
  }

  /** INSERT ... ON CONFLICT (user_id, connected_id) DO UPDATE: the row for
      (u, p) gets the new message, timestamp and unread count, in place if it
      exists and as a new last row otherwise. */
  function Upsert(rows: seq<SummaryRow>, u: UserId, p: UserId, text: string, ts: Timestamp, mode: UnreadUpdate)
    : (r: seq<SummaryRow>)
    ensures Table(r) == Table(rows)[(u, p) := Summary(text, ts, UnreadAfter(At(Table(rows), (u, p)), mode))]
    ensures |rows| <= |r| <= |rows| + 1
    ensures forall i :: 0 <= i < |rows| ==> r[i].user == rows[i].user && r[i].peer == rows[i].peer
    ensures forall i :: 0 <= i < |rows| && (rows[i].user != u || rows[i].peer != p) ==> r[i] == rows[i]
    ensures |r| > |rows| ==> r[|rows|].user == u && r[|rows|].peer == p
    ensures |r| > |rows| ==> forall i :: 0 <= i < |rows| ==> rows[i].user != u || rows[i].peer != p
  {
    if rows == [] then
      [SummaryRow(u, p, Summary(text, ts, UnreadAfter(None, mode)))]
    else if rows[0].user == u && rows[0].peer == p then
      var r := [SummaryRow(u, p, Summary(text, ts, UnreadAfter(Some(rows[0].summary), mode)))] + rows[1..];
      assert r[1..] == rows[1..];
      r
    else
      var t := Upsert(rows[1..], u, p, text, ts, mode);
      var r := [rows[0]] + t;
      assert r[1..] == t;
      var m := Table(rows[1..]);
      var v := Summary(text, ts, UnreadAfter(At(m, (u, p)), mode));
      assert At(Table(rows), (u, p)) == At(m, (u, p));
      TableUpdateCommute(m, (u, p), v, (rows[0].user, rows[0].peer), rows[0].summary);
      assert forall i :: 1 <= i < |rows| ==> rows[1..][i - 1] == rows[i];
      r
  }

  /** An upsert keeps the pairs unique. */
  lemma UpsertUnique(rows: seq<SummaryRow>, u: UserId, p: UserId, text: string, ts: Timestamp, mode: UnreadUpdate)
    requires UniqueKeys(rows)
    ensures UniqueKeys(Upsert(rows, u, p, text, ts, mode))
  {
    var r := Upsert(rows, u, p, text, ts, mode);
    forall i, j | 0 <= i < j < |r| ensures r[i].user != r[j].user || r[i].peer != r[j].peer {
      if j < |rows| {
        assert r[i].user == rows[i].user && r[i].peer == rows[i].peer;
        assert r[j].user == rows[j].user && r[j].peer == rows[j].peer;
      } else {
        assert r[i].user == rows[i].user && r[i].peer == rows[i].peer;
      }
    }
  }

  /** The summary rows after a send from `from` to `to`: first the receiver's
      row (to, from), then the sender's row (from, to). */
  function AfterSend(rows: seq<SummaryRow>, from: UserId, to: UserId, text: string, ts: Timestamp): seq<SummaryRow>
  {
    var received := Upsert(rows, to, from, text, ts, Increment);
    Upsert(received, from, to, text, ts, Reset)
  }

  /** A send leaves the receiver's row one unread message up (or at 1 if it
      is new), the sender's row at zero unread, both with the new message and
      timestamp, and every other row as it was. Because the sender's upsert
      runs last, a message to oneself leaves the count at zero. */
  lemma SendSummaries(rows: seq<SummaryRow>, from: UserId, to: UserId, text: string, ts: Timestamp)
    ensures var t, t' := Table(rows), Table(AfterSend(rows, from, to, text, ts));
      && (from, to) in t' && t'[(from, to)] == Summary(text, ts, 0)
      && (from != to ==>
            (to, from) in t' &&
            t'[(to, from)] == Summary(text, ts, if (to, from) in t then t[(to, from)].unread + 1 else 1))
      && (forall k :: k != (from, to) && k != (to, from) ==> (k in t' <==> k in t))
      && (forall k :: k in t && k != (from, to) && k != (to, from) ==> t'[k] == t[k])
  {
  }

  /** A send changes no other row: a row of the new table whose pair is
      neither (from, to) nor (to, from) is an old row, at its old position. */
  lemma AfterSendKeepsOtherRows(rows: seq<SummaryRow>, from: UserId, to: UserId, text: string, ts: Timestamp, i: nat)
    requires i < |AfterSend(rows, from, to, text, ts)|
    requires var row := AfterSend(rows, from, to, text, ts)[i];
      (row.user, row.peer) != (from, to) && (row.user, row.peer) != (to, from)
    ensures i < |rows| && AfterSend(rows, from, to, text, ts)[i] == rows[i]
  {
    var mid := Upsert(rows, to, from, text, ts, Increment);
    var after := Upsert(mid, from, to, text, ts, Reset);
    assert i < |mid| && after[i] == mid[i];
  }

  /** The summary rows after the sends of `batch`, from `from` to `to`, one
      handler after the other. */
  function SendAll(rows: seq<SummaryRow>, from: UserId, to: UserId, batch: seq<(string, Timestamp)>): seq<SummaryRow>
    decreases |batch|
  {
    if batch == [] then rows
    else SendAll(AfterSend(rows, from, to, batch[0].0, batch[0].1), from, to, batch[1..])
  }

  /** No update is lost: each of a run of sends from `from` to `to` raises the
      receiver's unread count by exactly one, and the sender's count ends at
      zero. */
  lemma {:induction false} UnreadCountsEverySend(rows: seq<SummaryRow>, from: UserId, to: UserId, batch: seq<(string, Timestamp)>)
    requires from != to && batch != []
    ensures var t, t' := Table(rows), Table(SendAll(rows, from, to, batch));
      && (to, from) in t'
      && t'[(to, from)].unread == (if (to, from) in t then t[(to, from)].unread else 0) + |batch|
      && (from, to) in t' && t'[(from, to)].unread == 0
    decreases |batch|
  {
    var next := AfterSend(rows, from, to, batch[0].0, batch[0].1);
    SendSummaries(rows, from, to, batch[0].0, batch[0].1);
    if |batch| > 1 {
      UnreadCountsEverySend(next, from, to, batch[1..]);
    }
  }

  /** Every row of the table is in the map, and with unique keys each maps to
      its own summary. */
  lemma {:induction false} TableIndex(rows: seq<SummaryRow>)
    requires UniqueKeys(rows)
    ensures forall i :: 0 <= i < |rows| ==>
      (rows[i].user, rows[i].peer) in Table(rows) && Table(rows)[(rows[i].user, rows[i].peer)] == rows[i].summary
    ensures forall k :: k in Table(rows) ==> exists i :: 0 <= i < |rows| && (rows[i].user, rows[i].peer) == k
  {
    if rows != [] {
      var t := rows[1..];
      assert UniqueKeys(t) by {
        forall i, j | 0 <= i < j < |t| ensures t[i].user != t[j].user || t[i].peer != t[j].peer {
          assert t[i] == rows[i + 1] && t[j] == rows[j + 1];
        }
      }
      TableIndex(t);
      assert forall i :: 1 <= i < |rows| ==> t[i - 1] == rows[i];
      forall k | k in Table(rows) ensures exists i :: 0 <= i < |rows| && (rows[i].user, rows[i].peer) == k {
        if k != (rows[0].user, rows[0].peer) {
          assert k in Table(t);
          var i :| 0 <= i < |t| && (t[i].user, t[i].peer) == k;
          assert rows[i + 1] == t[i];
        }
      }
    }
  }
}
