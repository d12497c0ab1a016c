/**
 * The `mutes` table and what the periodic sweep makes of it. The table has
 * no key and every mute INSERTs a row, so a user muted twice has two rows.
 * The sweep reads the table through `get_mutes()`, a dictionary in which a
 * later row of a user overwrites an earlier one; unmuting and the sweep
 * delete every row of a user at once.
 */
module MuteLedger {
  import opened Wrappers
  import opened Time
  import opened Ids

  /** One row of the `mutes` table: who, until when, and why. */
  datatype MuteRow = MuteRow(user: UserId, end: Stamp, reason: string)

  /** `DELETE FROM mutes WHERE user_id = ?`, for every user in `users`. */
  function Drop(rows: seq<MuteRow>, users: set<UserId>): (r: seq<MuteRow>)
    ensures |r| <= |rows|
  {
    if rows == [] then []
    else Drop(rows[..|rows| - 1], users) + (if rows[|rows| - 1].user in users then [] else [rows[|rows| - 1]])
  }

  /** The last row of `u`: the one that survives in `get_mutes()`. */
  function LastOf(rows: seq<MuteRow>, u: UserId): Option<MuteRow>
  {
    if rows == [] then None
    else if rows[|rows| - 1].user == u then Some(rows[|rows| - 1])
    else LastOf(rows[..|rows| - 1], u)
  }

  /** The dictionary `get_mutes()` builds: `{row.user: row for row in rows}`. */
  function Collapse(rows: seq<MuteRow>): map<UserId, MuteRow>
  {
    if rows == [] then map[]
    else Collapse(rows[..|rows| - 1])[rows[|rows| - 1].user := rows[|rows| - 1]]
  }

  /**
   * The keys of `get_mutes()` in dictionary order: a key keeps the place of
   * its first insertion when later rows overwrite its value.
   */
  function Users(rows: seq<MuteRow>): (us: seq<UserId>)
    ensures forall i, j :: 0 <= i < j < |us| ==> us[i] != us[j]
  {
    if rows == [] then []
    else
      var us := Users(rows[..|rows| - 1]);
      if rows[|rows| - 1].user in us then us else us + [rows[|rows| - 1].user]
  }

  /**
   * The users whose mute the sweep lifts at `now`: the member holds the mute
   * role, the guild resolves them, and the row `get_mutes()` kept for them
   * has ended.
   */
  function Due(rows: seq<MuteRow>, muted: set<UserId>, present: set<UserId>, now: int): set<UserId>
  {
    set u | u in muted && u in present && LastOf(rows, u).Some? && LastOf(rows, u).value.end <= now
  }

  /** Some user's surviving row has ended by `now`. */
  predicate AnyEnded(rows: seq<MuteRow>, now: int)
  {
    exists u :: u in Collapse(rows) && Collapse(rows)[u].end <= now
  }

  /**
   * A keyed alternative to the `mutes` table, kept only for comparison:
   * one row per user, a new mute replacing the old row.
   */
  function Upsert(rows: seq<MuteRow>): seq<MuteRow>
  {
    if rows == [] then []
    else Drop(Upsert(rows[..|rows| - 1]), {rows[|rows| - 1].user}) + [rows[|rows| - 1]]
  }

  predicate OneRowPerUser(rows: seq<MuteRow>)
  {
    forall i, j :: 0 <= i < j < |rows| ==> rows[i].user != rows[j].user
  }

  /** The dictionary holds, for each user with a row, exactly that user's last row. */
  lemma {:induction false} CollapseKeepsLast(rows: seq<MuteRow>, u: UserId)
    ensures u in Collapse(rows) <==> LastOf(rows, u).Some?
    ensures u in Collapse(rows) ==> Collapse(rows)[u] == LastOf(rows, u).value
  {
    if rows != [] {
      CollapseKeepsLast(rows[..|rows| - 1], u);
    }
  }

  /** Deleting nobody's rows leaves the table as it is. */
  lemma {:induction false} DropNothing(rows: seq<MuteRow>)
    ensures Drop(rows, {}) == rows
  {
    if rows != [] {
      DropNothing(rows[..|rows| - 1]);
    }
  }

  /** The dictionary's keys are listed, each once: exactly the users with a row. */
  lemma {:induction false} UsersAreKeys(rows: seq<MuteRow>, u: UserId)
    ensures u in Users(rows) <==> u in Collapse(rows)
  {
    if rows != [] {
      UsersAreKeys(rows[..|rows| - 1], u);
    }
  }

  /** Deleting some users' rows keeps exactly the rows of everybody else, in order. */
  lemma {:induction false} DropMembers(rows: seq<MuteRow>, users: set<UserId>, x: MuteRow)
    ensures x in Drop(rows, users) <==> x in rows && x.user !in users
  {
    if rows != [] {
      DropMembers(rows[..|rows| - 1], users, x);
      assert rows == rows[..|rows| - 1] + [rows[|rows| - 1]];
    }
  }

  /** Deleting other users' rows does not change which row of `u` is last; deleting `u`'s leaves none. */
  lemma {:induction false} LastOfDrop(rows: seq<MuteRow>, users: set<UserId>, u: UserId)
    ensures LastOf(Drop(rows, users), u) == if u in users then None else LastOf(rows, u)
  {
    if rows != [] {
      var init, last := rows[..|rows| - 1], rows[|rows| - 1];
      LastOfDrop(init, users, u);
      assert rows[..|rows| - 1] == init;
      if last.user in users {
        assert Drop(rows, users) == Drop(init, users) + [] == Drop(init, users);
        assert u !in users ==> LastOf(rows, u) == LastOf(init, u);
      } else {
        var kept := Drop(init, users);
        assert Drop(rows, users) == kept + [last];
        assert (kept + [last])[..|kept|] == kept;
      }
    }
  }

  /** Two deletions in a row are one deletion of both sets of users. */
  lemma {:induction false} DropTwice(rows: seq<MuteRow>, a: set<UserId>, b: set<UserId>)
    ensures Drop(Drop(rows, a), b) == Drop(rows, a + b)
  {
    if rows != [] {
      var init, last := rows[..|rows| - 1], rows[|rows| - 1];
      DropTwice(init, a, b);
      if last.user in a {
        assert Drop(rows, a) == Drop(init, a) + [] == Drop(init, a);
        assert Drop(rows, a + b) == Drop(init, a + b) + [] == Drop(init, a + b);
      } else {
        var kept := Drop(init, a);
        assert Drop(rows, a) == kept + [last];
        assert (kept + [last])[..|kept|] == kept;
        if last.user in b {
          assert Drop(kept + [last], b) == Drop(kept, b) + [];
        }
      }
    }
  }

  /** Only users that hold the role, resolve and have an ended row are due. */
  lemma DueMembers(rows: seq<MuteRow>, muted: set<UserId>, present: set<UserId>, now: int, u: UserId)
    ensures u in Due(rows, muted, present, now) <==>
      u in muted && u in present && u in Collapse(rows) && Collapse(rows)[u].end <= now
  {
    CollapseKeepsLast(rows, u);
  }

  /**
   * One step of the sweep, for a user `u` not handled before: the member
   * loses the role exactly when `u` is due, and the users lifted so far grow
   * by `u` in that case only.
   */
  lemma SweepStep(rows: seq<MuteRow>, muted: set<UserId>, present: set<UserId>, now: int,
                  done: set<UserId>, u: UserId)
    requires u !in done
    ensures var due := Due(rows, muted, present, now);
      var lifts := u in muted - due * done && u in present && u in Collapse(rows) && Collapse(rows)[u].end <= now;
      && (lifts <==> u in due)
      && muted - due * (done + {u}) == (if lifts then (muted - due * done) - {u} else muted - due * done)
      && Drop(rows, due * (done + {u})) == (if lifts then Drop(Drop(rows, due * done), {u}) else Drop(rows, due * done))
  {
    DueMembers(rows, muted, present, now, u);
    GrowLifted(rows, muted, Due(rows, muted, present, now), done, u);
  }

  /** Handling one more user lifts that user in addition exactly when the user is in `due`. */
  lemma GrowLifted(rows: seq<MuteRow>, muted: set<UserId>, due: set<UserId>, done: set<UserId>, u: UserId)
    ensures muted - due * (done + {u}) == (if u in due then (muted - due * done) - {u} else muted - due * done)
    ensures Drop(rows, due * (done + {u})) == (if u in due then Drop(Drop(rows, due * done), {u}) else Drop(rows, due * done))
  {
    DropTwice(rows, due * done, {u});
    if u in due {
      assert due * (done + {u}) == due * done + {u};
    } else {
      assert due * (done + {u}) == due * done;
    }
  }

  /** The users among the first `i` of `us`. */
  function Prefix(us: seq<UserId>, i: nat): set<UserId>
    requires i <= |us|
  {
    if i == 0 then {} else Prefix(us, i - 1) + {us[i - 1]}
  }

  /** In a list without repetitions, a user further on is not among the first `i`. */
  lemma {:induction false} PrefixExcludes(us: seq<UserId>, i: nat, k: nat)
    requires i <= k < |us|
    requires forall a, b :: 0 <= a < b < |us| ==> us[a] != us[b]
    ensures us[k] !in Prefix(us, i)
  {
    if i > 0 {
      PrefixExcludes(us, i - 1, k);
    }
  }

  /** The users among the first `i` are exactly those at the first `i` positions. */
  lemma {:induction false} PrefixIncludes(us: seq<UserId>, i: nat, v: UserId)
    requires i <= |us|
    ensures v in Prefix(us, i) <==> v in us[..i]
  {
    if i > 0 {
      PrefixIncludes(us, i - 1, v);
      assert us[..i] == us[..i - 1] + [us[i - 1]];
    }
  }

  /** A walk over every key of `get_mutes()` has met every due user. */
  lemma AllVisited(rows: seq<MuteRow>, muted: set<UserId>, present: set<UserId>, now: int, done: set<UserId>)
    requires done == Prefix(Users(rows), |Users(rows)|)
    ensures forall v :: v in Collapse(rows) ==> v in done
    ensures Due(rows, muted, present, now) * done == Due(rows, muted, present, now)
  {
    forall v | v in Collapse(rows)
      ensures v in done
    {
      UsersAreKeys(rows, v);
      PrefixIncludes(Users(rows), |Users(rows)|, v);
      assert Users(rows)[..|Users(rows)|] == Users(rows);
    }
    forall u | u in Due(rows, muted, present, now)
      ensures u in done
    {
      DueMembers(rows, muted, present, now, u);
      UsersAreKeys(rows, u);
    }
  }

  /** A sweep leaves nothing for a second sweep at the same moment to do. */
  lemma SweepIdempotent(rows: seq<MuteRow>, muted: set<UserId>, present: set<UserId>, now: int)
    ensures var due := Due(rows, muted, present, now);
      Due(Drop(rows, due), muted - due, present, now) == {}
  {
    var due := Due(rows, muted, present, now);
    forall u | u in Due(Drop(rows, due), muted - due, present, now)
      ensures false
    {
      LastOfDrop(rows, due, u);
    }
  }

  /**
   * A fresh mute row decides the sweep for its user: the user is due exactly
   * when the guild resolves them and the row's end has been reached.
   */
  lemma NewRowDecides(rows: seq<MuteRow>, row: MuteRow, muted: set<UserId>, present: set<UserId>, now: int)
    requires row.user in muted
    ensures row.user in Due(rows + [row], muted, present, now) <==> row.user in present && row.end <= now
  {
    assert (rows + [row])[..|rows|] == rows;
  }

  /** A table holding one row: the sweep lifts its user exactly from the row's end on, and then empties the table. */
  lemma SoleRow(row: MuteRow, now: int)
    ensures Due([row], {row.user}, {row.user}, now) == if row.end <= now then {row.user} else {}
    ensures Drop([row], {row.user}) == [] && Drop([row], {}) == [row]
  {
    NewRowDecides([], row, {row.user}, {row.user}, now);
    assert [row][..0] == [];
  }

  /** As far as `get_mutes()` can tell, the keyless table is the keyed one. */
  lemma {:induction false} UpsertKeepsLast(rows: seq<MuteRow>, u: UserId)
    ensures LastOf(Upsert(rows), u) == LastOf(rows, u)
  {
    if rows != [] {
      var init, last := rows[..|rows| - 1], rows[|rows| - 1];
      UpsertKeepsLast(init, u);
      var kept := Drop(Upsert(init), {last.user});
      assert (kept + [last])[..|kept|] == kept;
      LastOfDrop(Upsert(init), {last.user}, u);
    }
  }

  lemma {:induction false} UpsertIsKeyed(rows: seq<MuteRow>)
    ensures OneRowPerUser(Upsert(rows))
  {
    if rows != [] {
      var init, last := rows[..|rows| - 1], rows[|rows| - 1];
      UpsertIsKeyed(init);
      var kept := Drop(Upsert(init), {last.user});
      DropKeepsKeyed(Upsert(init), {last.user});
      forall i | 0 <= i < |kept|
        ensures kept[i].user != last.user
      {
        DropMembers(Upsert(init), {last.user}, kept[i]);
      }
    }
  }

  lemma {:induction false} DropKeepsKeyed(rows: seq<MuteRow>, users: set<UserId>)
    requires OneRowPerUser(rows)
    ensures OneRowPerUser(Drop(rows, users))
  {
    if rows != [] {
      var init, last := rows[..|rows| - 1], rows[|rows| - 1];
      DropKeepsKeyed(init, users);
      forall x | x in Drop(init, users)
        ensures x.user != last.user
      {
        DropMembers(init, users, x);
      }
    }
  }

  /** So the sweep lifts the same mutes whether rows stack or are replaced. */
  lemma SweepSeesUpsert(rows: seq<MuteRow>, muted: set<UserId>, present: set<UserId>, now: int)
    ensures Due(rows, muted, present, now) == Due(Upsert(rows), muted, present, now)
  {
    forall u
      ensures u in Due(rows, muted, present, now) <==> u in Due(Upsert(rows), muted, present, now)
    {
      UpsertKeepsLast(rows, u);
    }
  }

  /**
   * A later, shorter mute decides alone: once it has ended, the sweep lifts
   * the user and deletes the earlier row as well, although that row's own
   * end has not been reached.
   */
  lemma ShorterRemuteDropsLongerRow(rows: seq<MuteRow>, a: MuteRow, b: MuteRow,
                                    muted: set<UserId>, present: set<UserId>, now: int)
    requires a.user == b.user && b.end <= now < a.end
    requires a.user in muted && a.user in present
    ensures var due := Due(rows + [a, b], muted, present, now);
      && a.user in due
      && a !in Drop(rows + [a, b], due) && b !in Drop(rows + [a, b], due)
  {
    var table := rows + [a, b];
    var due := Due(table, muted, present, now);
    assert LastOf(table, a.user) == Some(b);
    DropMembers(table, due, a);
    DropMembers(table, due, b);
  }
}
