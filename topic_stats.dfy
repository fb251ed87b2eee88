/**
 * Per-topic daily message counters for the daily summary
 * (app/services/topic_stats.py). The `topic_stats` table is a map keyed by
 * (chat id, topic id, date key).
 */
module TopicStats {
  import opened Wrappers

  /** The longest stored last message. */
  const LastMessageLimit := 200

  /** A row of `topic_stats`. */
  datatype TopicStat = TopicStat(messagesCount: int, lastMessage: Option<string>)

  type TopicKey = (int, int, string)

  /** A row of the daily report: the topic and its counters. */
  datatype TopicRow = TopicRow(topicId: int, stat: TopicStat)

  /** `last_message[:200]`. */
  function Truncate(message: string): (t: string)
    ensures |t| <= LastMessageLimit && t <= message
    ensures |message| <= LastMessageLimit ==> t == message
  {
    if |message| <= LastMessageLimit then message else message[..LastMessageLimit]
  }

  /** The row after `bump_topic_stat`: a missing row starts at zero with no message,
      the count goes up by one, and a non-empty message replaces the stored one. */
  function Bumped(stat: Option<TopicStat>, lastMessage: Option<string>): TopicStat {
    var before := if stat.Some? then stat.value else TopicStat(0, None);
    var counted := before.(messagesCount := before.messagesCount + 1);
    if lastMessage.Some? && lastMessage.value != [] then counted.(lastMessage := Some(Truncate(lastMessage.value)))
    else counted
  }

  /** A new row counts 1, an existing row one more; a non-empty message is kept cut to
      200 characters, and a missing or empty one leaves the stored message. */
  lemma BumpedFacts(stat: Option<TopicStat>, lastMessage: Option<string>)
    ensures stat.None? ==> Bumped(stat, lastMessage).messagesCount == 1
    ensures stat.Some? ==> Bumped(stat, lastMessage).messagesCount == stat.value.messagesCount + 1
    ensures lastMessage.Some? && lastMessage.value != [] ==>
      && Bumped(stat, lastMessage).lastMessage.Some?
      && Bumped(stat, lastMessage).lastMessage.value <= lastMessage.value
      && |Bumped(stat, lastMessage).lastMessage.value| == if |lastMessage.value| < LastMessageLimit then |lastMessage.value| else LastMessageLimit
    ensures lastMessage.None? || lastMessage.value == [] ==>
      Bumped(stat, lastMessage).lastMessage == if stat.Some? then stat.value.lastMessage else None
  {
  }

  /** Counts ordered from most to fewest messages. */
  predicate ByCountDesc(rows: seq<TopicRow>) {
    forall i, j :: 0 <= i < j < |rows| ==> rows[i].stat.messagesCount >= rows[j].stat.messagesCount
  }

  /** The topics of a report. */
  function Topics(rows: seq<TopicRow>): set<int> {
    set r | r in rows :: r.topicId
  }

  /** No topic appears twice. */
  predicate DistinctTopics(rows: seq<TopicRow>) {
    forall i, j :: 0 <= i < j < |rows| ==> rows[i].topicId != rows[j].topicId
  }

  /** The keys of the given chat and day. */
  function DayKeys(table: map<TopicKey, TopicStat>, chatId: int, dateKey: string): set<TopicKey> {
    set k | k in table && k.0 == chatId && k.2 == dateKey
  }

  /** Places a row before the first row with fewer messages. */
  function InsertByCount(rows: seq<TopicRow>, row: TopicRow): seq<TopicRow> {
    if rows == [] || row.stat.messagesCount >= rows[0].stat.messagesCount then [row] + rows
    else [rows[0]] + InsertByCount(rows[1..], row)
  }

  /** Inserting adds exactly the new row. */
  lemma {:induction false} InsertByCountElems(rows: seq<TopicRow>, row: TopicRow)
    ensures var r := InsertByCount(rows, row);
      |r| == |rows| + 1 && forall x :: x in r <==> x in rows || x == row
  {
    if !(rows == [] || row.stat.messagesCount >= rows[0].stat.messagesCount) {
      InsertByCountElems(rows[1..], row);
      assert forall x :: x in rows <==> x == rows[0] || x in rows[1..];
    }
  }

  /** Inserting keeps the order from most to fewest messages. */
  lemma {:induction false} InsertByCountSorted(rows: seq<TopicRow>, row: TopicRow)
    requires ByCountDesc(rows)
    ensures ByCountDesc(InsertByCount(rows, row))
  {
    var r := InsertByCount(rows, row);
    if rows == [] || row.stat.messagesCount >= rows[0].stat.messagesCount {
      forall i, j | 0 <= i < j < |r| ensures r[i].stat.messagesCount >= r[j].stat.messagesCount {
        assert r[j] == rows[j - 1];
        if i > 0 {
          assert r[i] == rows[i - 1];
        }
      }
    } else {
      var tail := rows[1..];
      var rest := InsertByCount(tail, row);
      assert ByCountDesc(tail) by {
        forall i, j | 0 <= i < j < |tail| ensures tail[i].stat.messagesCount >= tail[j].stat.messagesCount {
          assert tail[i] == rows[i + 1] && tail[j] == rows[j + 1];
        }
      }
      InsertByCountSorted(tail, row);
      InsertByCountElems(tail, row);
      assert r == [rows[0]] + rest;
      forall i, j | 0 <= i < j < |r| ensures r[i].stat.messagesCount >= r[j].stat.messagesCount {
        assert r[j] == rest[j - 1];
        if i > 0 {
          assert r[i] == rest[i - 1];
        } else if r[j] != row {
          assert r[j] in tail;
          var k :| 0 <= k < |tail| && tail[k] == r[j];
          assert tail[k] == rows[k + 1];
        }
      }
    }
  }

  /** Inserting a row of a topic not yet present keeps the topics distinct. */
  lemma {:induction false} InsertByCountDistinct(rows: seq<TopicRow>, row: TopicRow)
    requires DistinctTopics(rows) && row.topicId !in Topics(rows)
    ensures DistinctTopics(InsertByCount(rows, row))
  {
    var r := InsertByCount(rows, row);
    if rows == [] || row.stat.messagesCount >= rows[0].stat.messagesCount {
      forall i, j | 0 <= i < j < |r| ensures r[i].topicId != r[j].topicId {
        assert r[j] == rows[j - 1];
        if i > 0 {
          assert r[i] == rows[i - 1];
        } else {
          assert rows[j - 1] in rows;
        }
      }
    } else {
      var tail := rows[1..];
      var rest := InsertByCount(tail, row);
      assert DistinctTopics(tail) by {
        forall i, j | 0 <= i < j < |tail| ensures tail[i].topicId != tail[j].topicId {
          assert tail[i] == rows[i + 1] && tail[j] == rows[j + 1];
        }
      }
      assert row.topicId !in Topics(tail) by {
        forall x | x in tail ensures x.topicId != row.topicId {
          assert x in rows;
        }
      }
      InsertByCountDistinct(tail, row);
      InsertByCountElems(tail, row);
      assert r == [rows[0]] + rest;
      forall i, j | 0 <= i < j < |r| ensures r[i].topicId != r[j].topicId {
        assert r[j] == rest[j - 1];
        if i > 0 {
          assert r[i] == rest[i - 1];
        } else if r[j] == row {
          assert rows[0] in rows;
        } else {
          assert r[j] in tail;
          var k :| 0 <= k < |tail| && tail[k] == r[j];
          assert tail[k] == rows[k + 1];
        }
      }
    }
  }

  /** The `topic_stats` table. */
  class TopicStatsTable {
    var table: map<TopicKey, TopicStat>

    constructor ()
      ensures table == map[]
    {
      table := map[];
    }

    /** `bump_topic_stat`: the row of (chat, topic, day), created when missing, is
        replaced by its bumped version; other rows do not change. */
    method BumpTopicStat(chatId: int, topicId: int, dateKey: string, lastMessage: Option<string>)
      modifies this
      ensures var key := (chatId, topicId, dateKey);
        table == old(table)[key := Bumped(if key in old(table) then Some(old(table)[key]) else None, lastMessage)]
    {
      var key := (chatId, topicId, dateKey);
      var stat := if key in table then table[key] else TopicStat(0, None);
      stat := stat.(messagesCount := stat.messagesCount + 1);
      if lastMessage.Some? && lastMessage.value != [] {
        stat := stat.(lastMessage := Some(Truncate(lastMessage.value)));
      }
      table := table[key := stat];
    }

    /** `get_daily_stats`: the rows of one chat and day, each once with its stored
        counters, from most to fewest messages (rows with equal counts in any order). */
    method GetDailyStats(chatId: int, dateKey: string) returns (rows: seq<TopicRow>)
      ensures forall r :: r in rows ==> (chatId, r.topicId, dateKey) in table && table[(chatId, r.topicId, dateKey)] == r.stat
      ensures forall k :: k in DayKeys(table, chatId, dateKey) ==> k.1 in Topics(rows)
      ensures DistinctTopics(rows)
      ensures ByCountDesc(rows)
      ensures |rows| == |DayKeys(table, chatId, dateKey)|
    {
      var pending := DayKeys(table, chatId, dateKey);
      rows := [];
      while pending != {}
        invariant pending <= DayKeys(table, chatId, dateKey)
        invariant forall r :: r in rows ==> (chatId, r.topicId, dateKey) in table && table[(chatId, r.topicId, dateKey)] == r.stat
        invariant forall k :: k in DayKeys(table, chatId, dateKey) ==> k in pending || k.1 in Topics(rows)
        invariant forall k :: k in pending ==> k.1 !in Topics(rows)
        invariant DistinctTopics(rows)
        invariant ByCountDesc(rows)
        invariant |rows| + |pending| == |DayKeys(table, chatId, dateKey)|
        decreases |pending|
      {
        if forall k :: k !in pending {
          assert false;
        }
        var key :| key in pending;
        var row := TopicRow(key.1, table[key]);
        InsertByCountElems(rows, row);
        InsertByCountSorted(rows, row);
        InsertByCountDistinct(rows, row);
        ghost var before := rows;
        rows := InsertByCount(rows, row);
        assert Topics(rows) == Topics(before) + {key.1} by {
          forall t | t in Topics(rows) ensures t in Topics(before) + {key.1} {
            var x :| x in rows && x.topicId == t;
          }
          forall t | t in Topics(before) ensures t in Topics(rows) {
            var x :| x in before && x.topicId == t;
            assert x in rows;
          }
          assert row in rows;
        }
        pending := pending - {key};
      }
    }
  }
}
