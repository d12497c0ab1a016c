/**
 * The moderation state of the bot and the commands that change it. One
 * `Bot` holds the guild's mute role and who holds it, the `mutes`,
 * `warnings` and `bomb_cooldowns` tables, and the in-memory `bomb_info`
 * dictionary of planted bombs. Every command takes the moment it runs at
 * as `now`; the member lookups of Discord are parameters.
 */
module Moderation {
  import opened Wrappers
  import opened Time
  import opened Duration
  import opened MuteLedger
  import opened WarningLog
  import opened Minigame
  import opened Ids

  /** How a `mute` command ends. `MutedNoRecord`: the role was granted, then computing the end raised `OverflowError`. */
  datatype MuteOutcome = NoMuteRole | BadDuration | DurationRaises | Muted(end: Stamp) | MutedNoRecord

  datatype WarnOutcome = Warned | Escalated(mute: MuteOutcome) | ClockRaises

  /** How a `bomb` command ends; `parts` is the "try again in ..." breakdown of `remaining`. */
  datatype BombOutcome =
    | OnCooldown(remaining: nat, parts: seq<(nat, TimeUnit)>)
    | Declined
    | TimedOut
    | Planted(hint: string)
    | Overflow

  datatype DefuseOutcome = NothingPlanted | Defused | WrongGuess

  /** The mute an escalated warning hands out. */
  const EscalationLength: string := "24h"
  const EscalationReason: string := "3 предупреждения за 24 часа"

  /** The channel members a mass mute touches: everybody but the bot itself. */
  function Targets(members: seq<UserId>, me: UserId): (r: set<UserId>)
    ensures forall u :: u in r <==> u in members && u != me
  {
    set u | u in members && u != me
  }

  class Bot {
    /** Whether the guild has the role `MUTE_ROLE_ID`. */
    const hasMuteRole: bool
    /** The bot's own member, `ctx.guild.me`. */
    const me: UserId
    /** The members that hold the mute role. */
    var muted: set<UserId>
    var mutes: seq<MuteRow>
    var warnings: seq<WarningRow>
    /** `bomb_cooldowns`: keyed by guild. */
    var cooldowns: map<GuildId, Stamp>
    /** `bomb_info`: the bombs planted since the bot started, keyed by guild. */
    var sessions: map<GuildId, Session>

    /** Nobody holds a role the guild does not have, and every planted code was drawn from the code range. */
    predicate Valid()
      reads this
    {
      (hasMuteRole || muted == {}) &&
      forall g :: g in sessions ==> ValidCode(sessions[g].code)
    }

    /** The guild may plant a bomb: it has no cooldown row, or the row's end is not after `now`. */
    predicate CooldownOver(guild: GuildId, now: Stamp)
      reads this
    {
      guild !in cooldowns || cooldowns[guild] <= now
    }

    /** The bot starts on the persisted tables and with no bomb planted. */
    constructor (hasMuteRole: bool, me: UserId, muted: set<UserId>, mutes: seq<MuteRow>,
                 warnings: seq<WarningRow>, cooldowns: map<GuildId, Stamp>)
      requires hasMuteRole || muted == {}
      ensures Valid()
      ensures this.hasMuteRole == hasMuteRole && this.me == me && this.muted == muted
      ensures this.mutes == mutes && this.warnings == warnings && this.cooldowns == cooldowns
      ensures sessions == map[]
    {
      this.hasMuteRole := hasMuteRole;
      this.me := me;
      this.muted := muted;
      this.mutes := mutes;
      this.warnings := warnings;
      this.cooldowns := cooldowns;
      sessions := map[];
    }

    /** `add_mute`: one more row, whatever rows the user has already. */
    method AddMute(user: UserId, end: Stamp, reason: string)
      modifies this`mutes
      ensures mutes == old(mutes) + [MuteRow(user, end, reason)]
    {
      mutes := mutes + [MuteRow(user, end, reason)];
    }

    /** `remove_mute`: every row of the user goes. */
    method RemoveMute(user: UserId)
      modifies this`mutes
      ensures mutes == Drop(old(mutes), {user})
    {
      mutes := Drop(mutes, {user});
    }

    /** `add_warning`, stamped with the current time. */
    method AddWarning(user: UserId, reason: string, now: Stamp)
      modifies this`warnings
      ensures warnings == old(warnings) + [WarningRow(user, now, reason)]
    {
      warnings := warnings + [WarningRow(user, now, reason)];
    }

    /** `remove_warnings`. */
    method RemoveWarnings(user: UserId)
      modifies this`warnings
      ensures warnings == DropUser(old(warnings), user)
    {
      warnings := DropUser(warnings, user);
    }

    /** `set_bomb_cooldown`: insert or replace the guild's row. */
    method SetCooldown(guild: GuildId, end: Stamp)
      modifies this`cooldowns
      ensures cooldowns == old(cooldowns)[guild := end]
    {
      cooldowns := cooldowns[guild := end];
    }

    /** `remove_bomb_cooldown`. */
    method RemoveCooldown(guild: GuildId)
      modifies this`cooldowns
      ensures cooldowns == old(cooldowns) - {guild}
    {
      cooldowns := cooldowns - {guild};
    }

    /**
     * `mute`: without the role nothing happens; a duration that is not
     * recognised or whose number `int()` rejects changes nothing; otherwise
     * the member gets the role and a row ending `duration` from now is
     * added, unless that end lies outside the calendar, in which case the
     * command raises after granting the role.
     */
    method Mute(user: UserId, duration: string, reason: string, now: Stamp) returns (outcome: MuteOutcome)
      requires Valid()
      modifies this`muted, this`mutes
      ensures Valid()
      ensures !hasMuteRole ==> outcome == NoMuteRole
      ensures hasMuteRole && ParseDuration(duration).Unrecognised? ==> outcome == BadDuration
      ensures hasMuteRole && ParseDuration(duration).Raises? ==> outcome == DurationRaises
      ensures outcome.Muted? || outcome.MutedNoRecord? <==> hasMuteRole && ParseDuration(duration).Seconds?
      ensures outcome.Muted? <==>
        hasMuteRole && ParseDuration(duration).Seconds? && Shift(now, ParseDuration(duration).n).Some?
      ensures outcome.Muted? ==> outcome.end == now + ParseDuration(duration).n
      ensures muted == if outcome.Muted? || outcome.MutedNoRecord? then old(muted) + {user} else old(muted)
      ensures mutes == if outcome.Muted? then old(mutes) + [MuteRow(user, outcome.end, reason)] else old(mutes)
    {
      if !hasMuteRole {
        return NoMuteRole;
      }
      var parsed := ParseDuration(duration);
      if parsed.Unrecognised? {
        return BadDuration;
      }
      if parsed.Raises? {
        return DurationRaises;
      }
      muted := muted + {user};
      var end := Shift(now, parsed.n);
      if end.None? {
        return MutedNoRecord;
      }
      AddMute(user, end.value, reason);
      outcome := Muted(end.value);
    }

    /** `unmute`: a member holding the role loses it and all their rows; anybody else is left alone. */
    method Unmute(user: UserId) returns (unmuted: bool)
      requires Valid()
      modifies this`muted, this`mutes
      ensures Valid()
      ensures unmuted <==> user in old(muted)
      ensures muted == old(muted) - {user}
      ensures mutes == if unmuted then Drop(old(mutes), {user}) else old(mutes)
    {
      unmuted := hasMuteRole && user in muted;
      if unmuted {
        muted := muted - {user};
        RemoveMute(user);
      }
    }

    /**
     * The body of the `check_mutes` loop for one user whose surviving row
     * ends at `end`: past the end, the guild lookup raises when the guild
     * does not resolve; otherwise a member found there who holds the role
     * loses it and all their rows.
     */
    method Visit(u: UserId, end: Stamp, now: Stamp, guildFound: bool, present: set<UserId>) returns (crashed: bool)
      requires Valid()
      modifies this`muted, this`mutes
      ensures Valid()
      ensures crashed <==> !guildFound && end <= now
      ensures var lifts := guildFound && end <= now && u in present && u in old(muted);
        && muted == (if lifts then old(muted) - {u} else old(muted))
        && mutes == (if lifts then Drop(old(mutes), {u}) else old(mutes))
    {
      crashed := false;
      if end <= now {
        if !guildFound {
          return true;
        }
        if u in present && u in muted {
          muted := muted - {u};
          RemoveMute(u);
        }
      }
    }

    /**
     * `Visit` as one step of a whole sweep that started from `rows0` and
     * `muted0` and has handled the users in `done`: handling `u` as well
     * lifts `u` exactly when `u` is due.
     */
    method SweepVisit(ghost rows0: seq<MuteRow>, ghost muted0: set<UserId>, ghost done: set<UserId>,
                      u: UserId, end: Stamp, now: Stamp, guildFound: bool, present: set<UserId>)
      returns (crashed: bool)
      requires Valid()
      requires u !in done && u in Collapse(rows0) && end == Collapse(rows0)[u].end
      requires muted == muted0 - Due(rows0, muted0, present, now) * done
      requires mutes == Drop(rows0, Due(rows0, muted0, present, now) * done)
      modifies this`muted, this`mutes
      ensures Valid()
      ensures crashed <==> !guildFound && end <= now
      ensures !guildFound ==> muted == old(muted) && mutes == old(mutes)
      ensures !crashed ==> muted == muted0 - Due(rows0, muted0, present, now) * (done + {u})
      ensures !crashed ==> mutes == Drop(rows0, Due(rows0, muted0, present, now) * (done + {u}))
    {
      SweepStep(rows0, muted0, present, now, done, u);
      crashed := Visit(u, end, now, guildFound, present);
    }

    /**
     * One run of `check_mutes`: for every user of the `get_mutes()`
     * snapshot, in the dictionary's order, whose row has ended, the guild is looked up;
     * when it resolves, a member found there who holds the role loses it and
     * all their rows. When the guild does not resolve, the first ended row
     * raises and the run stops before changing anything.
     */
    method Sweep(now: Stamp, guildFound: bool, present: set<UserId>) returns (crashed: bool)
      requires Valid()
      modifies this`muted, this`mutes
      ensures Valid()
      ensures crashed <==> !guildFound && AnyEnded(old(mutes), now)
      ensures crashed ==> muted == old(muted) && mutes == old(mutes)
      ensures !crashed ==> muted == old(muted) - Due(old(mutes), old(muted), present, now)
      ensures !crashed ==> mutes == Drop(old(mutes), Due(old(mutes), old(muted), present, now))
    {
      var snapshot := Collapse(mutes);
      var order := Users(mutes);
      ghost var rows0, muted0 := mutes, muted;
      ghost var due := Due(mutes, muted, present, now);
      ghost var done: set<UserId> := {};
      crashed := false;
      DropNothing(rows0);
      assert due * done == {};
      var i := 0;
      while i < |order|
        invariant 0 <= i <= |order|
        invariant done == Prefix(order, i)
        invariant muted == muted0 - due * done
        invariant mutes == Drop(rows0, due * done)
        invariant !guildFound ==> muted == muted0 && mutes == rows0
        invariant !guildFound ==> forall v :: v in done ==> v in snapshot && snapshot[v].end > now
      {
        var u := order[i];
        PrefixExcludes(order, i, i);
        UsersAreKeys(rows0, u);
        crashed := SweepVisit(rows0, muted0, done, u, snapshot[u].end, now, guildFound, present);
        if crashed {
          assert AnyEnded(rows0, now);
          return;
        }
        done := done + {u};
        i := i + 1;
      }
      AllVisited(rows0, muted0, present, now, done);
      assert due * done == due;
    }

    /**
     * `warn`: the warning is recorded; when it is the third recent one the
     * member is muted for `24h` and their warnings are cleared. A mute that
     * raises leaves the warnings in place, since the clearing comes after it.
     * Within the calendar's first day the cut-off a day back cannot be
     * formed: that raises at the first filter when the member has earlier
     * warnings, and otherwise at the second, after the row is recorded.
     */
    method Warn(user: UserId, reason: string, now: Stamp) returns (outcome: WarnOutcome)
      requires Valid()
      modifies this`muted, this`mutes, this`warnings
      ensures Valid()
      ensures outcome == ClockRaises <==> Shift(now, -(Day as int)).None?
      ensures outcome == ClockRaises ==>
        muted == old(muted) && mutes == old(mutes) &&
        warnings == if RowsOf(old(warnings), user) == [] then old(warnings) + [WarningRow(user, now, reason)] else old(warnings)
      ensures outcome.Escalated? <==> Shift(now, -(Day as int)).Some? && Escalates(old(warnings), user, now, reason)
      ensures outcome.Escalated? ==>
        outcome.mute == (if !hasMuteRole then NoMuteRole else if Shift(now, Day).Some? then Muted(now + Day) else MutedNoRecord)
      ensures outcome != ClockRaises ==>
        warnings == if outcome == Escalated(MutedNoRecord) then old(warnings) + [WarningRow(user, now, reason)]
          else AfterWarn(old(warnings), user, now, reason)
      ensures outcome != ClockRaises ==>
        muted == if outcome.Escalated? && hasMuteRole then old(muted) + {user} else old(muted)
      ensures outcome != ClockRaises ==>
        mutes == if outcome.Escalated? && outcome.mute.Muted? then old(mutes) + [MuteRow(user, outcome.mute.end, EscalationReason)]
          else old(mutes)
    {
      if Shift(now, -(Day as int)).None? {
        if RowsOf(warnings, user) == [] {
          AddWarning(user, reason, now);
        }
        return ClockRaises;
      }
      outcome := WarnPastCutoff(user, reason, now);
    }

    /** `warn` once the cut-off a day back exists. */
    method WarnPastCutoff(user: UserId, reason: string, now: Stamp) returns (outcome: WarnOutcome)
      requires Valid() && Shift(now, -(Day as int)).Some?
      modifies this`muted, this`mutes, this`warnings
      ensures Valid()
      ensures outcome != ClockRaises
      ensures outcome.Escalated? <==> Escalates(old(warnings), user, now, reason)
      ensures outcome.Escalated? ==>
        outcome.mute == (if !hasMuteRole then NoMuteRole else if Shift(now, Day).Some? then Muted(now + Day) else MutedNoRecord)
      ensures warnings == if outcome == Escalated(MutedNoRecord) then old(warnings) + [WarningRow(user, now, reason)]
        else AfterWarn(old(warnings), user, now, reason)
      ensures muted == if outcome.Escalated? && hasMuteRole then old(muted) + {user} else old(muted)
      ensures mutes == if outcome.Escalated? && outcome.mute.Muted? then old(mutes) + [MuteRow(user, outcome.mute.end, EscalationReason)]
        else old(mutes)
    {
      var escalates := Escalates(warnings, user, now, reason);
      AddWarning(user, reason, now);
      if escalates {
        OneDay();
        var m := Mute(user, EscalationLength, EscalationReason, now);
        if !m.MutedNoRecord? {
          RemoveWarnings(user);
        }
        outcome := Escalated(m);
      } else {
        outcome := Warned;
      }
    }

    /** `warnremove`: clears the member's warnings when there are any, and says whether there were. */
    method WarnRemove(user: UserId) returns (removed: bool)
      modifies this`warnings
      ensures removed <==> RowsOf(old(warnings), user) != []
      ensures warnings == if removed then DropUser(old(warnings), user) else old(warnings)
    {
      removed := RowsOf(warnings, user) != [];
      if removed {
        RemoveWarnings(user);
      }
    }

    /**
     * `bomb`: refused while the guild's cooldown lies after `now`; a
     * declined or timed-out confirmation deletes the guild's cooldown row;
     * a confirmed one plants a bomb with `code` for an hour and starts a
     * week's cooldown. The clock is read again for each of these two ends,
     * after the confirmation wait: `plantedAt` and `cooldownAt` are those
     * readings. Each end can lie outside the calendar, which raises at that
     * point.
     */
    method Bomb(guild: GuildId, author: UserId, clicks: seq<Click>, now: Stamp, plantedAt: Stamp, cooldownAt: Stamp,
                code: int) returns (outcome: BombOutcome)
      requires Valid() && ValidCode(code)
      modifies this`cooldowns, this`sessions
      ensures Valid()
      ensures !old(CooldownOver(guild, now)) ==>
        var remaining := old(cooldowns)[guild] - now;
        outcome == OnCooldown(remaining, RetryParts(remaining)) && cooldowns == old(cooldowns) && sessions == old(sessions)
      ensures old(CooldownOver(guild, now)) && Answer(clicks, author) != Some(true) ==>
        outcome == (if Answer(clicks, author) == None then TimedOut else Declined) &&
        cooldowns == old(cooldowns) - {guild} && sessions == old(sessions)
      ensures old(CooldownOver(guild, now)) && Answer(clicks, author) == Some(true) && Shift(plantedAt, Fuse).None? ==>
        outcome == Overflow && cooldowns == old(cooldowns) && sessions == old(sessions)
      ensures old(CooldownOver(guild, now)) && Answer(clicks, author) == Some(true) && Shift(plantedAt, Fuse).Some? ==>
        sessions == old(sessions)[guild := Session(code, plantedAt + Fuse)]
      ensures old(CooldownOver(guild, now)) && Answer(clicks, author) == Some(true) && Shift(plantedAt, Fuse).Some? ==>
        if Shift(cooldownAt, Cooldown).None? then outcome == Overflow && cooldowns == old(cooldowns)
        else outcome == Planted(Hint(code)) && cooldowns == old(cooldowns)[guild := cooldownAt + Cooldown]
    {
      if !CooldownOver(guild, now) {
        var remaining := cooldowns[guild] - now;
        return OnCooldown(remaining, RetryParts(remaining));
      }
      var answer := Answer(clicks, author);
      if answer.None? {
        RemoveCooldown(guild);
        return TimedOut;
      } else if !answer.value {
        RemoveCooldown(guild);
        return Declined;
      }
      var hint := Hint(code);
      var fuseEnd := Shift(plantedAt, Fuse);
      if fuseEnd.None? {
        return Overflow;
      }
      sessions := sessions[guild := Session(code, fuseEnd.value)];
      var cooldownEnd := Shift(cooldownAt, Cooldown);
      if cooldownEnd.None? {
        return Overflow;
      }
      SetCooldown(guild, cooldownEnd.value);
      outcome := Planted(hint);
    }

    /** `defuse`: the right code removes the guild's bomb, at any time; a wrong one changes nothing. */
    method Defuse(guild: GuildId, guess: int) returns (outcome: DefuseOutcome)
      requires Valid()
      modifies this`sessions
      ensures Valid()
      ensures guild !in old(sessions) ==> outcome == NothingPlanted && sessions == old(sessions)
      ensures guild in old(sessions) && guess == old(sessions)[guild].code ==>
        outcome == Defused && sessions == old(sessions) - {guild}
      ensures guild in old(sessions) && guess != old(sessions)[guild].code ==>
        outcome == WrongGuess && sessions == old(sessions)
    {
      if guild !in sessions {
        return NothingPlanted;
      }
      if guess == sessions[guild].code {
        sessions := sessions - {guild};
        return Defused;
      }
      outcome := WrongGuess;
    }

    /**
     * The end of `bomb`, an hour after planting: a bomb of the guild whose
     * end has come explodes and mutes the channel. The exploded bomb stays
     * in `bomb_info`.
     */
    method Expire(guild: GuildId, now: Stamp, members: seq<UserId>) returns (exploded: bool)
      requires Valid()
      modifies this`muted
      ensures Valid()
      ensures exploded <==> guild in sessions && sessions[guild].end <= now
      ensures muted == if exploded && hasMuteRole then old(muted) + Targets(members, me) else old(muted)
    {
      exploded := guild in sessions && sessions[guild].end <= now;
      if exploded {
        MassMute(members);
      }
    }

    /** The first half of `mute_all`: every channel member but the bot gets the role, if the guild has it. */
    method MassMute(members: seq<UserId>)
      requires Valid()
      modifies this`muted
      ensures Valid()
      ensures muted == if hasMuteRole then old(muted) + Targets(members, me) else old(muted)
    {
      if !hasMuteRole {
        return;
      }
      var i := 0;
      while i < |members|
        invariant 0 <= i <= |members|
        invariant muted == old(muted) + Targets(members[..i], me)
      {
        assert members[..i + 1] == members[..i] + [members[i]];
        if members[i] != me {
          muted := muted + {members[i]};
        }
        i := i + 1;
      }
      assert members[..i] == members;
    }

    /** The second half of `mute_all`, an hour later: the same members lose the role, however they got it. */
    method MassRelease(members: seq<UserId>)
      requires Valid()
      modifies this`muted
      ensures Valid()
      ensures muted == if hasMuteRole then old(muted) - Targets(members, me) else old(muted)
    {
      if !hasMuteRole {
        return;
      }
      var i := 0;
      while i < |members|
        invariant 0 <= i <= |members|
        invariant muted == old(muted) - Targets(members[..i], me)
      {
        assert members[..i + 1] == members[..i] + [members[i]];
        if members[i] != me {
          muted := muted - {members[i]};
        }
        i := i + 1;
      }
      assert members[..i] == members;
    }
  }
}
