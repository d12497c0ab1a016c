/**
 * Command sequences run against a freshly started bot, each showing a
 * behaviour that only appears when several commands meet: a mute running
 * out, three warnings in a day, a second bomb within the week, a bomb that
 * is still defusable after it went off, and a mass mute that strands a
 * row of the `mutes` table.
 */
module Scenarios {
  import opened Wrappers
  import opened Time
  import opened Decimal
  import opened Duration
  import opened MuteLedger
  import opened WarningLog
  import opened Minigame
  import opened Moderation
  import opened Ids

  /**
   * `mute user <duration>` at `now`, for any positive duration, followed by
   * the sweep at the end of the mute: the member loses the role and the
   * table is empty again.
   */
  method MuteRunsOut(user: UserId, duration: string, reason: string, now: Stamp)
    returns (outcome: MuteOutcome, mutedAfter: bool, rowsAfter: seq<MuteRow>)
    requires ParseDuration(duration).Seconds? && ParseDuration(duration).n > 0
    requires now + ParseDuration(duration).n <= MaxStamp
    ensures outcome == Muted(now + ParseDuration(duration).n)
    ensures !mutedAfter && rowsAfter == []
  {
    var bot := new Bot(true, user + 1, {}, [], [], map[]);
    var end: Stamp := now + ParseDuration(duration).n;
    outcome := bot.Mute(user, duration, reason, now);
    assert outcome == Muted(end);
    var row := MuteRow(user, end, reason);
    assert bot.mutes == [row];
    assert bot.muted == {user};
    SoleRow(row, end);
    var crashed := bot.Sweep(end, true, {user});
    mutedAfter := user in bot.muted;
    rowsAfter := bot.mutes;
  }

  /** A sweep before the end of a member's only mute leaves the member muted and the row in place. */
  method SweepBeforeEnd(row: MuteRow, now: Stamp) returns (mutedAfter: bool, rowsAfter: seq<MuteRow>)
    requires now < row.end
    ensures mutedAfter && rowsAfter == [row]
  {
    var bot := new Bot(true, row.user + 1, {row.user}, [row], [], map[]);
    SoleRow(row, now);
    var crashed := bot.Sweep(now, true, {row.user});
    mutedAfter := row.user in bot.muted;
    rowsAfter := bot.mutes;
  }

  /**
   * The third `warn` of a user within a day, on a table holding the first
   * two: it mutes the member for a day and leaves them without warnings.
   */
  method ThirdWarningMutes(user: UserId, t1: Stamp, t2: Stamp, t3: Stamp, r1: string, r2: string, r3: string)
    returns (outcome: WarnOutcome, mutedAfter: bool, left: seq<WarningRow>)
    requires Day <= t1 <= t2 <= t3 < t1 + Day && t3 + Day <= MaxStamp
    ensures outcome == Escalated(Muted(t3 + Day))
    ensures mutedAfter && RowsOf(left, user) == []
  {
    var earlier := AfterWarn(AfterWarn([], user, t1, r1), user, t2, r2);
    var bot := new Bot(true, user + 1, {}, [], earlier, map[]);
    ThirdWarningEscalates([], user, t1, t2, t3, r1, r2, r3);
    outcome := bot.Warn(user, r3, t3);
    mutedAfter := user in bot.muted;
    left := bot.warnings;
  }

  /**
   * A second `bomb` in the same guild before the week is up is refused,
   * naming the time left until the cooldown set by the first.
   */
  method PlantTwice(guild: GuildId, author: UserId, now: Stamp, answered: Stamp, later: Stamp, code1: int, code2: int)
    returns (first: BombOutcome, second: BombOutcome)
    requires ValidCode(code1) && ValidCode(code2)
    requires later < answered + Cooldown && answered + Cooldown <= MaxStamp
    ensures first == Planted(Hint(code1))
    ensures second.OnCooldown? && second.remaining == answered + Cooldown - later
  {
    var bot := new Bot(true, author + 1, {}, [], [], map[]);
    var yes := [Click(author, true)];
    assert Answer(yes, author) == Some(true);
    first := bot.Bomb(guild, author, yes, now, answered, answered, code1);
    second := bot.Bomb(guild, author, yes, later, later, later, code2);
  }

  /**
   * A bomb nobody defused goes off after its hour and mutes the channel,
   * but stays planted: its code still "defuses" it afterwards.
   */
  method ExplodedBombStillDefuses(guild: GuildId, author: UserId, me: UserId, now: Stamp, code: int, members: seq<UserId>)
    returns (exploded: bool, mutedAfter: set<UserId>, late: DefuseOutcome)
    requires ValidCode(code) && now + Cooldown <= MaxStamp
    ensures exploded && mutedAfter == Targets(members, me)
    ensures late == Defused
  {
    var bot := new Bot(true, me, {}, [], [], map[]);
    var yes := [Click(author, true)];
    assert Answer(yes, author) == Some(true);
    var planted := bot.Bomb(guild, author, yes, now, now, now, code);
    exploded := bot.Expire(guild, now + Fuse, members);
    mutedAfter := bot.muted;
    late := bot.Defuse(guild, code);
  }

  /**
   * A member muted with `mute` and caught in a mass mute loses the role
   * when the mass mute ends, before their own mute does. Their row stays,
   * and the sweep at its end does not delete it, since the member no longer
   * holds the role.
   */
  method MassMuteStrandsRow(row: MuteRow, me: UserId, now: Stamp)
    returns (mutedAfter: bool, rowsAfter: seq<MuteRow>)
    requires row.user != me && now < row.end
    ensures !mutedAfter && rowsAfter == [row]
  {
    var bot := new Bot(true, me, {row.user}, [row], [], map[]);
    bot.MassMute([row.user]);
    bot.MassRelease([row.user]);
    assert bot.muted == {};
    assert Due([row], {}, {row.user}, row.end) == {};
    DropNothing([row]);
    var crashed := bot.Sweep(row.end, true, {row.user});
    mutedAfter := row.user in bot.muted;
    rowsAfter := bot.mutes;
  }
}
