/**
 * The two read handlers: `get_message_history`, the transcript between two
 * users in `sent_at` order, and `get_user_conversations`, a user's summary
 * rows joined with the accounts table and newest first.
 */
module Queries {
  import opened Domain
  import opened Sorting
  import opened Store

  /** The WHERE clause of the history query: `m` went from one of the two
      users to the other. */
  predicate Between(m: Message, u: UserId, v: UserId)
  {
    (m.sender == u && m.receiver == v) || (m.sender == v && m.receiver == u)
  }

  /** The messages between `u` and `v`, in log order. */
  function Transcript(log: seq<Message>, u: UserId, v: UserId): seq<Message>
  {
    if log == [] then []
    else if Between(log[0], u, v) then [log[0]] + Transcript(log[1..], u, v)
    else Transcript(log[1..], u, v)
  }

  /** The transcript holds exactly the logged messages between the two users,
      each as often as it is stored. */
  lemma {:induction false} TranscriptCounts(log: seq<Message>, u: UserId, v: UserId)
    ensures forall m :: multiset(Transcript(log, u, v))[m] == if Between(m, u, v) then multiset(log)[m] else 0
  {
    if log != [] {
      assert log == [log[0]] + log[1..];
      TranscriptCounts(log[1..], u, v);
    }
  }

  /** The sort key of the history query: ORDER BY sent_at. */
  function SentAt(m: Message): int { m.sentAt }

  /** `get_message_history(u, v)`: exactly the messages exchanged by the two
      users, each as often as it is stored, oldest first. */
  function MessageHistory(log: seq<Message>, u: UserId, v: UserId): (r: seq<Message>)
    ensures forall i, j :: 0 <= i < j < |r| ==> r[i].sentAt <= r[j].sentAt
    ensures forall m :: multiset(r)[m] == if Between(m, u, v) then multiset(log)[m] else 0
  {
    var r := SortBy(Transcript(log, u, v), SentAt);
    assert SortedBy(r, SentAt);
    TranscriptCounts(log, u, v);
    r
  }

  /** Appending a message extends the transcript of its own pair and leaves
      every other transcript alone. */
  lemma {:induction false} TranscriptAppend(log: seq<Message>, m: Message, u: UserId, v: UserId)
    ensures Transcript(log + [m], u, v) == Transcript(log, u, v) + (if Between(m, u, v) then [m] else [])
  {
    if log == [] {
      assert [] + [m] == [m];
      assert [m][1..] == [];
    } else {
      assert (log + [m])[0] == log[0];
      assert (log + [m])[1..] == log[1..] + [m];
      TranscriptAppend(log[1..], m, u, v);
      var w, e := Transcript(log[1..], u, v), if Between(m, u, v) then [m] else [];
      if Between(log[0], u, v) {
        assert [log[0]] + (w + e) == ([log[0]] + w) + e;
      }
    }
  }

  /** The transcript does not depend on which of the two users asks. */
  lemma {:induction false} TranscriptSymmetric(log: seq<Message>, u: UserId, v: UserId)
    ensures Transcript(log, u, v) == Transcript(log, v, u)
  {
    if log != [] {
      TranscriptSymmetric(log[1..], u, v);
    }
  }

  /** Both users see the same history. */
  lemma HistorySymmetric(log: seq<Message>, u: UserId, v: UserId)
    ensures MessageHistory(log, u, v) == MessageHistory(log, v, u)
  {
    TranscriptSymmetric(log, u, v);
  }

  /** A bound on the sent_at of the pair's messages in the log is a bound on
      every entry of their transcript. */
  lemma {:induction false} TranscriptBounded(log: seq<Message>, u: UserId, v: UserId, ts: Timestamp)
    requires forall x :: x in log && Between(x, u, v) ==> x.sentAt < ts
    ensures forall x :: x in Transcript(log, u, v) ==> SentAt(x) < ts
  {
    if log != [] {
      assert forall x :: x in log[1..] ==> x in log;
      TranscriptBounded(log[1..], u, v, ts);
    }
  }

  /** Appending a message leaves the history of every other pair alone; when
      it is stamped strictly after every earlier message of its own pair, it
      becomes the new last entry of that pair's history, as seen by either of
      them. */
  lemma HistoryAfterSend(log: seq<Message>, m: Message, u: UserId, v: UserId)
    requires Between(m, u, v) ==> forall x :: x in log && Between(x, u, v) ==> x.sentAt < m.sentAt
    ensures Between(m, u, v) ==> MessageHistory(log + [m], u, v) == MessageHistory(log, u, v) + [m]
    ensures !Between(m, u, v) ==> MessageHistory(log + [m], u, v) == MessageHistory(log, u, v)
  {
    TranscriptAppend(log, m, u, v);
    var t := Transcript(log, u, v);
    if Between(m, u, v) {
      TranscriptBounded(log, u, v, m.sentAt);
      SortAppendMax(t, m, SentAt);
      assert Transcript(log + [m], u, v) == t + [m];
      assert MessageHistory(log + [m], u, v) == SortBy(t + [m], SentAt);
    } else {
      assert Transcript(log + [m], u, v) == t;
    }
  }

  /** Whatever else the table holds, the messages of one pair, stamped with
      strictly increasing timestamps, come back in the order they were
      stored. */
  lemma {:induction false} HistoryOfOrderedConversation(log: seq<Message>, a: UserId, b: UserId)
    requires forall i, j :: 0 <= i < j < |log| && Between(log[i], a, b) && Between(log[j], a, b) ==>
      log[i].sentAt < log[j].sentAt
    ensures MessageHistory(log, a, b) == Transcript(log, a, b)
  {
    if log == [] {
      assert MessageHistory(log, a, b) == [];
    } else {
      var init, last := log[..|log| - 1], log[|log| - 1];
      assert log == init + [last];
      assert forall i :: 0 <= i < |init| ==> init[i] == log[i];
      HistoryOfOrderedConversation(init, a, b);
      if Between(last, a, b) {
        forall x | x in init && Between(x, a, b) ensures x.sentAt < last.sentAt {
          var i :| 0 <= i < |init| && init[i] == x;
          assert log[i] == x;
        }
      }
      HistoryAfterSend(init, last, a, b);
      TranscriptAppend(init, last, a, b);
    }
  }

  /** A log that holds one conversation only is its own transcript. */
  lemma {:induction false} TranscriptOfOneConversation(log: seq<Message>, a: UserId, b: UserId)
    requires forall i :: 0 <= i < |log| ==> Between(log[i], a, b)
    ensures Transcript(log, a, b) == log
  {
    if log != [] {
      assert forall i :: 1 <= i < |log| ==> log[1..][i - 1] == log[i];
      TranscriptOfOneConversation(log[1..], a, b);
    }
  }

  /** A log holding one conversation, stamped with strictly increasing
      timestamps, comes back as it was stored: after A to B, B to A, A to B,
      the history is those three messages in that order. */
  lemma HistoryOfOneConversation(log: seq<Message>, a: UserId, b: UserId)
    requires forall i :: 0 <= i < |log| ==> Between(log[i], a, b)
    requires forall i, j :: 0 <= i < j < |log| ==> log[i].sentAt < log[j].sentAt
    ensures MessageHistory(log, a, b) == log
  {
    HistoryOfOrderedConversation(log, a, b);
    TranscriptOfOneConversation(log, a, b);
  }

  /** One row of the `user_conversations` reply. */
  datatype ConversationView = ConversationView(
    connectedId: UserId, lastMessage: string, lastTimestamp: Timestamp, unread: nat, connectedEmail: Email)

  /** The reply row for a summary row whose peer has the given email. */
  function ViewOf(row: SummaryRow, email: Email): ConversationView
  {
    ConversationView(row.peer, row.summary.lastMessage, row.summary.lastTimestamp, row.summary.unread, email)
  }

  /** The row is `u`'s and its peer is a known account: the WHERE and JOIN
      conditions of the conversations query. */
  predicate Listed(row: SummaryRow, accounts: map<UserId, Email>, u: UserId)
  {
    row.user == u && row.peer in accounts
  }

  /** The positions of `user`'s rows that survive the join. */
  ghost function ListedIndices(rows: seq<SummaryRow>, accounts: map<UserId, Email>, u: UserId): set<nat>
  {
    set i: nat | i < |rows| && Listed(rows[i], accounts, u)
  }

  /** A set of positions, each moved one place on. */
  ghost function Shifted(s: set<nat>): set<nat>
  {
    set j | j in s :: j + 1
  }

  /** Shifting a set of positions by one keeps its size. */
  lemma {:induction false} ShiftedCard(s: set<nat>)
    ensures |Shifted(s)| == |s|
  {
    if s != {} {
      var x :| x in s;
      ShiftedCard(s - {x});
      forall k | k in Shifted(s) ensures k in Shifted(s - {x}) + {x + 1} {
        var j :| j in s && k == j + 1;
        if j != x {
          assert j in s - {x};
        }
      }
      assert Shifted(s) == Shifted(s - {x}) + {x + 1};
      assert s == (s - {x}) + {x};
    }
  }

  /** The surviving positions of a table are its head, if it survives, and the
      surviving positions of its tail, shifted by one. */
  lemma ListedIndicesSplit(rows: seq<SummaryRow>, accounts: map<UserId, Email>, u: UserId)
    requires rows != []
    ensures |ListedIndices(rows, accounts, u)| ==
      (if Listed(rows[0], accounts, u) then 1 else 0) + |ListedIndices(rows[1..], accounts, u)|
  {
    var tail := ListedIndices(rows[1..], accounts, u);
    var shifted := Shifted(tail);
    ShiftedCard(tail);
    assert ListedIndices(rows, accounts, u) - {0} == shifted by {
      forall i | i in shifted ensures i in ListedIndices(rows, accounts, u) - {0} {
        assert rows[1..][i - 1] == rows[i];
      }
      forall i | i in ListedIndices(rows, accounts, u) - {0} ensures i in shifted {
        assert rows[1..][i - 1] == rows[i];
        assert i - 1 in tail;
      }
    }
    if Listed(rows[0], accounts, u) {
      assert ListedIndices(rows, accounts, u) == {0} + shifted;
    } else {
      assert ListedIndices(rows, accounts, u) == shifted;
    }
  }

  /** The WHERE clause and the inner join, before ordering. */
  function Joined(rows: seq<SummaryRow>, accounts: map<UserId, Email>, u: UserId): (r: seq<ConversationView>)
    ensures forall i :: 0 <= i < |rows| && Listed(rows[i], accounts, u) ==> ViewOf(rows[i], accounts[rows[i].peer]) in r
    ensures forall x :: x in r ==>
      exists i :: 0 <= i < |rows| && Listed(rows[i], accounts, u) && x == ViewOf(rows[i], accounts[rows[i].peer])
  {
    if rows == [] then []
    else
      var rest := Joined(rows[1..], accounts, u);
      assert forall i :: 1 <= i < |rows| ==> rows[1..][i - 1] == rows[i];
      var r := if Listed(rows[0], accounts, u) then [ViewOf(rows[0], accounts[rows[0].peer])] + rest else rest;
      assert forall x :: x in r ==>
        exists i :: 0 <= i < |rows| && Listed(rows[i], accounts, u) && x == ViewOf(rows[i], accounts[rows[i].peer]) by {
        forall x | x in r
          ensures exists i :: 0 <= i < |rows| && Listed(rows[i], accounts, u) && x == ViewOf(rows[i], accounts[rows[i].peer])
        {
          if x in rest {
            var i :| 0 <= i < |rows[1..]| && Listed(rows[1..][i], accounts, u) && x == ViewOf(rows[1..][i], accounts[rows[1..][i].peer]);
            assert rows[i + 1] == rows[1..][i];
          }
        }
      }
      r
  }

  /** The join holds one reply row per surviving summary row: no row is
      dropped and none is repeated. */
  lemma {:induction false} JoinedCount(rows: seq<SummaryRow>, accounts: map<UserId, Email>, u: UserId)
    ensures |Joined(rows, accounts, u)| == |ListedIndices(rows, accounts, u)|
  {
    if rows != [] {
      JoinedCount(rows[1..], accounts, u);
      ListedIndicesSplit(rows, accounts, u);
    }
  }

  /** The sort key of the conversations query: ORDER BY
      last_message_timestamp DESC. */
  function Recency(x: ConversationView): int { -x.lastTimestamp }

  /** `get_user_conversations(u)`: exactly the reply rows of `u`'s summaries
      whose peer is a known account, newest first. */
  function UserConversations(rows: seq<SummaryRow>, accounts: map<UserId, Email>, u: UserId): (r: seq<ConversationView>)
    ensures forall i, j :: 0 <= i < j < |r| ==> r[i].lastTimestamp >= r[j].lastTimestamp
    ensures multiset(r) == multiset(Joined(rows, accounts, u))
    ensures forall i :: 0 <= i < |rows| && Listed(rows[i], accounts, u) ==> ViewOf(rows[i], accounts[rows[i].peer]) in r
    ensures forall x :: x in r ==>
      exists i :: 0 <= i < |rows| && Listed(rows[i], accounts, u) && x == ViewOf(rows[i], accounts[rows[i].peer])
  {
    var j := Joined(rows, accounts, u);
    var r := SortBy(j, Recency);
    assert SortedBy(r, Recency);
    assert forall x :: x in r <==> x in j by {
      forall x ensures x in r <==> x in j {
        assert x in r <==> x in multiset(r);
      }
    }
    r
  }

  /** The conversations reply has one entry per surviving summary row. */
  lemma ConversationsCount(rows: seq<SummaryRow>, accounts: map<UserId, Email>, u: UserId)
    ensures |UserConversations(rows, accounts, u)| == |ListedIndices(rows, accounts, u)|
  {
    var r := UserConversations(rows, accounts, u);
    JoinedCount(rows, accounts, u);
    assert |r| == |multiset(r)| == |multiset(Joined(rows, accounts, u))|;
  }

  /** After such a send, the sent conversation's reply row is in the join
      and is strictly newer than every other row of it. */
  lemma SentConversationNewest(rows: seq<SummaryRow>, accounts: map<UserId, Email>,
                               from: UserId, to: UserId, text: string, ts: Timestamp)
    requires UniqueKeys(rows) && to in accounts
    requires forall i :: 0 <= i < |rows| && rows[i].user == from && rows[i].peer != to ==>
      rows[i].summary.lastTimestamp < ts
    ensures var joined := Joined(AfterSend(rows, from, to, text, ts), accounts, from);
      var x := ConversationView(to, text, ts, 0, accounts[to]);
      x in joined && forall y :: y in joined && y != x ==> Recency(x) < Recency(y)
  {
    var after := AfterSend(rows, from, to, text, ts);
    var x := ConversationView(to, text, ts, 0, accounts[to]);
    var joined := Joined(after, accounts, from);
    assert UniqueKeys(after) by {
      UpsertUnique(rows, to, from, text, ts, Increment);
      UpsertUnique(Upsert(rows, to, from, text, ts, Increment), from, to, text, ts, Reset);
    }
    assert Table(after)[(from, to)] == Summary(text, ts, 0) by {
      SendSummaries(rows, from, to, text, ts);
    }
    TableIndex(after);
    assert x in joined by {
      var i :| 0 <= i < |after| && (after[i].user, after[i].peer) == (from, to);
      assert ViewOf(after[i], accounts[to]) == x;
    }
    forall y | y in joined && y != x ensures Recency(x) < Recency(y) {
      var i :| 0 <= i < |after| && Listed(after[i], accounts, from) && y == ViewOf(after[i], accounts[after[i].peer]);
      assert after[i].peer != to;
      AfterSendKeepsOtherRows(rows, from, to, text, ts, i);
    }
  }

  /** A send from `from` to `to` stamped later than every other conversation
      of `from` puts that conversation at the top of `from`'s list, with the
      new message and nothing unread. */
  lemma SendMovesToTop(rows: seq<SummaryRow>, accounts: map<UserId, Email>,
                       from: UserId, to: UserId, text: string, ts: Timestamp)
    requires UniqueKeys(rows) && to in accounts
    requires forall i :: 0 <= i < |rows| && rows[i].user == from && rows[i].peer != to ==>
      rows[i].summary.lastTimestamp < ts
    ensures var list := UserConversations(AfterSend(rows, from, to, text, ts), accounts, from);
      list != [] && list[0] == ConversationView(to, text, ts, 0, accounts[to])
  {
    var joined := Joined(AfterSend(rows, from, to, text, ts), accounts, from);
    SentConversationNewest(rows, accounts, from, to, text, ts);
    StrictMinimumFirst(joined, ConversationView(to, text, ts, 0, accounts[to]), Recency);
  }
}
