/**
 * The `warnings` table and the 24-hour escalation rule. Warnings are only
 * ever appended; a warning older than a day no longer counts towards a
 * mute but stays in the table until the user's warnings are cleared, by
 * hand or by an escalation.
 */
module WarningLog {
  import opened Time
  import opened Ids

  /** One row of the `warnings` table. */
  datatype WarningRow = WarningRow(user: UserId, stamp: Stamp, reason: string)

  /** Recent warnings, counting the new one, that trigger a mute. */
  const Threshold: nat := 3

  /** `get_warnings(u)`: the user's rows in table order. */
  function RowsOf(rows: seq<WarningRow>, u: UserId): seq<WarningRow>
  {
    if rows == [] then []
    else RowsOf(rows[..|rows| - 1], u) + (if rows[|rows| - 1].user == u then [rows[|rows| - 1]] else [])
  }

  /** `remove_warnings(u)`: `DELETE FROM warnings WHERE user_id = ?`. */
  function DropUser(rows: seq<WarningRow>, u: UserId): seq<WarningRow>
  {
    if rows == [] then []
    else DropUser(rows[..|rows| - 1], u) + (if rows[|rows| - 1].user == u then [] else [rows[|rows| - 1]])
  }

  /** The 24-hour filter: warnings strictly younger than one day at `now`. */
  function Recent(ws: seq<WarningRow>, now: int): seq<WarningRow>
  {
    if ws == [] then []
    else Recent(ws[..|ws| - 1], now) + (if ws[|ws| - 1].stamp > now - Day then [ws[|ws| - 1]] else [])
  }

  /**
   * The count `warn` compares with the threshold: the user's recent
   * warnings, with the new warning appended, filtered once more.
   */
  function RecentCount(rows: seq<WarningRow>, u: UserId, now: Stamp, reason: string): nat
  {
    |Recent(Recent(RowsOf(rows, u), now) + [WarningRow(u, now, reason)], now)|
  }

  predicate Escalates(rows: seq<WarningRow>, u: UserId, now: Stamp, reason: string)
  {
    RecentCount(rows, u, now, reason) >= Threshold
  }

  /** The table after `warn(u, reason)` at `now`: the warning is added, and cleared again with all of `u`'s on escalation. */
  function AfterWarn(rows: seq<WarningRow>, u: UserId, now: Stamp, reason: string): seq<WarningRow>
  {
    var added := rows + [WarningRow(u, now, reason)];
    if Escalates(rows, u, now, reason) then DropUser(added, u) else added
  }

  function Reverse<T>(s: seq<T>): (r: seq<T>)
    ensures |r| == |s|
    ensures forall i :: 0 <= i < |s| ==> r[i] == s[|s| - 1 - i]
  {
    if s == [] then [] else [s[|s| - 1]] + Reverse(s[..|s| - 1])
  }

  /** What `warnings(u)` lists: the user's rows, last inserted first. */
  function Listing(rows: seq<WarningRow>, u: UserId): seq<WarningRow>
  {
    Reverse(RowsOf(rows, u))
  }

  predicate Chronological(rows: seq<WarningRow>)
  {
    forall i, j :: 0 <= i < j < |rows| ==> rows[i].stamp <= rows[j].stamp
  }

  /** `get_warnings(u)` returns exactly the rows of `u`. */
  lemma {:induction false} RowsOfMembers(rows: seq<WarningRow>, u: UserId, w: WarningRow)
    ensures w in RowsOf(rows, u) <==> w in rows && w.user == u
  {
    if rows != [] {
      RowsOfMembers(rows[..|rows| - 1], u, w);
      assert rows == rows[..|rows| - 1] + [rows[|rows| - 1]];
    }
  }

  /** Clearing `u`'s warnings leaves `u` none and every other user all of theirs. */
  lemma {:induction false} DropUserRows(rows: seq<WarningRow>, u: UserId, v: UserId)
    ensures RowsOf(DropUser(rows, u), v) == if v == u then [] else RowsOf(rows, v)
  {
    if rows != [] {
      var init, last := rows[..|rows| - 1], rows[|rows| - 1];
      DropUserRows(init, u, v);
      var kept := DropUser(init, u);
      if last.user == u {
        assert DropUser(rows, u) == kept;
      } else {
        assert DropUser(rows, u) == kept + [last];
        assert (kept + [last])[..|kept|] == kept;
      }
    }
  }

  /** Once a user's warnings are cleared, their next warning is the only one that counts. */
  lemma ClearedCountRestarts(rows: seq<WarningRow>, u: UserId, now: Stamp, reason: string)
    ensures RecentCount(DropUser(rows, u), u, now, reason) == 1
    ensures !Escalates(DropUser(rows, u), u, now, reason)
  {
    DropUserRows(rows, u, u);
    NewWarningCounts(DropUser(rows, u), u, now, reason);
  }

  /** The new warning always counts, since it is younger than a day. */
  lemma {:induction false} NewWarningCounts(rows: seq<WarningRow>, u: UserId, now: Stamp, reason: string)
    ensures RecentCount(rows, u, now, reason) == |Recent(RowsOf(rows, u), now)| + 1
  {
    var recent := Recent(RowsOf(rows, u), now);
    RecentTwice(RowsOf(rows, u), now);
    var ws := recent + [WarningRow(u, now, reason)];
    assert ws[..|ws| - 1] == recent;
  }

  lemma {:induction false} RecentTwice(ws: seq<WarningRow>, now: int)
    ensures Recent(Recent(ws, now), now) == Recent(ws, now)
  {
    if ws != [] {
      var init, last := ws[..|ws| - 1], ws[|ws| - 1];
      RecentTwice(init, now);
      var r := Recent(init, now);
      if last.stamp > now - Day {
        assert (r + [last])[..|r|] == r;
      } else {
        assert Recent(ws, now) == r;
      }
    }
  }

  /** Warnings at least a day old do not count. */
  lemma {:induction false} StaleNotRecent(ws: seq<WarningRow>, now: int)
    requires forall i :: 0 <= i < |ws| ==> ws[i].stamp <= now - Day
    ensures Recent(ws, now) == []
  {
    if ws != [] {
      StaleNotRecent(ws[..|ws| - 1], now);
    }
  }

  /** Warnings younger than a day all count. */
  lemma {:induction false} FreshAllRecent(ws: seq<WarningRow>, now: int)
    requires forall i :: 0 <= i < |ws| ==> ws[i].stamp > now - Day
    ensures Recent(ws, now) == ws
  {
    if ws != [] {
      FreshAllRecent(ws[..|ws| - 1], now);
    }
  }

  /**
   * Three warnings of a user within one day, starting when none of the
   * user's earlier warnings is younger than a day: the first two only
   * warn, the third mutes and leaves the user without warnings, so the
   * count starts again from zero.
   */
  lemma ThirdWarningEscalates(rows: seq<WarningRow>, u: UserId, t1: Stamp, t2: Stamp, t3: Stamp,
                              r1: string, r2: string, r3: string)
    requires forall w :: w in rows && w.user == u ==> w.stamp <= t1 - Day
    requires t1 <= t2 <= t3 < t1 + Day
    ensures !Escalates(rows, u, t1, r1)
    ensures var s1 := AfterWarn(rows, u, t1, r1);
      && !Escalates(s1, u, t2, r2)
      && var s2 := AfterWarn(s1, u, t2, r2);
      && Escalates(s2, u, t3, r3)
      && RowsOf(AfterWarn(s2, u, t3, r3), u) == []
  {
    var earlier := RowsOf(rows, u);
    forall i | 0 <= i < |earlier|
      ensures earlier[i].stamp <= t1 - Day
    {
      RowsOfMembers(rows, u, earlier[i]);
    }
    var w1, w2, w3 := WarningRow(u, t1, r1), WarningRow(u, t2, r2), WarningRow(u, t3, r3);
    assert earlier + [] == earlier;
    CountAt(rows, u, earlier, [], t1, r1);
    var s1 := rows + [w1];
    RowsOfAppend(rows, w1, u);
    CountAt(s1, u, earlier, [w1], t2, r2);
    var s2 := s1 + [w2];
    RowsOfAppend(s1, w2, u);
    assert earlier + [w1] + [w2] == earlier + [w1, w2];
    CountAt(s2, u, earlier, [w1, w2], t3, r3);
    DropUserRows(s2 + [w3], u, u);
  }

  /** Appending a row adds it to its own user's rows only. */
  lemma RowsOfAppend(rows: seq<WarningRow>, w: WarningRow, u: UserId)
    ensures RowsOf(rows + [w], u) == RowsOf(rows, u) + (if w.user == u then [w] else [])
  {
    assert (rows + [w])[..|rows|] == rows;
  }

  /**
   * The count at a new warning: the user's rows at least a day old drop
   * out, the younger ones and the new warning count.
   */
  lemma CountAt(rows: seq<WarningRow>, u: UserId, aged: seq<WarningRow>, young: seq<WarningRow>,
                now: Stamp, reason: string)
    requires RowsOf(rows, u) == aged + young
    requires forall i :: 0 <= i < |aged| ==> aged[i].stamp <= now - Day
    requires forall i :: 0 <= i < |young| ==> young[i].stamp > now - Day
    ensures RecentCount(rows, u, now, reason) == |young| + 1
  {
    Split(aged, young, now);
    StaleNotRecent(aged, now);
    FreshAllRecent(young, now);
    NewWarningCounts(rows, u, now, reason);
  }

  lemma {:induction false} Split(a: seq<WarningRow>, b: seq<WarningRow>, now: int)
    ensures Recent(a + b, now) == Recent(a, now) + Recent(b, now)
  {
    if b == [] {
      assert a + b == a;
    } else {
      var ab := a + b;
      assert ab[..|ab| - 1] == a + b[..|b| - 1];
      assert ab[|ab| - 1] == b[|b| - 1];
      Split(a, b[..|b| - 1], now);
    }
  }

  /** `warnings(u)` lists every warning of `u` and nothing else. */
  lemma ListingMembers(rows: seq<WarningRow>, u: UserId, w: WarningRow)
    ensures |Listing(rows, u)| == |RowsOf(rows, u)|
    ensures w in Listing(rows, u) <==> w in rows && w.user == u
  {
    RowsOfMembers(rows, u, w);
    var mine, listed := RowsOf(rows, u), Listing(rows, u);
    if w in mine {
      var k :| 0 <= k < |mine| && mine[k] == w;
      assert listed[|mine| - 1 - k] == w;
    }
    if w in listed {
      var k :| 0 <= k < |listed| && listed[k] == w;
      assert mine[|mine| - 1 - k] == w;
    }
  }

  /** Rows appended in time order are listed newest first. */
  lemma ListingNewestFirst(rows: seq<WarningRow>, u: UserId)
    requires Chronological(rows)
    ensures forall i, j :: 0 <= i < j < |Listing(rows, u)| ==> Listing(rows, u)[i].stamp >= Listing(rows, u)[j].stamp
  {
    RowsOfChronological(rows, u);
  }

  lemma {:induction false} RowsOfChronological(rows: seq<WarningRow>, u: UserId)
    requires Chronological(rows)
    ensures Chronological(RowsOf(rows, u))
  {
    if rows != [] {
      var init, last := rows[..|rows| - 1], rows[|rows| - 1];
      RowsOfChronological(init, u);
      var mine := RowsOf(init, u);
      forall i | 0 <= i < |mine|
        ensures mine[i].stamp <= last.stamp
      {
        RowsOfMembers(init, u, mine[i]);
        var k :| 0 <= k < |init| && init[k] == mine[i];
        assert rows[k] == mine[i];
      }
    }
  }
}
