# Moderation and timed penalties of a Discord bot, in Dafny

This project models the moderation core of `bot.py`, a Discord bot for one
community server, and proves properties of the model. The core covers:

- **Duration tokens.** `parse_duration` turns `30m`, `2h`, `1d` or `60s`
  into seconds by handing everything before the suffix to Python's `int()`.
- **The mute ledger.**
  - `mute` grants the mute role and appends a row to the keyless `mutes`
    table.
  - `unmute` takes the role away and deletes all of the member's rows.
  - The `check_mutes` task lifts ended mutes once a minute. It reads the
    table through `get_mutes()`, a dictionary in which a user's last row
    wins.
- **Warnings.**
  - `warn` appends a warning. When that makes three warnings of the member
    within 24 hours, it mutes for `24h` and clears the member's warnings.
  - `warnremove` clears the warnings.
  - `warnings` lists them newest first.
- **The bomb mini-game.**
  - `bomb` is gated by a per-guild week-long cooldown and needs a
    confirmation by the command's author.
  - It plants a code from `randint(1000, 2000)` and prints a hint such as
    `1X3X`.
  - `defuse` takes a guess at the code.
  - An hour after planting, a bomb that is still there explodes and runs
    `mute_all` on the channel.
- **The audit log.**
  - `send_log_message` sends long messages in 4000-character slices.
  - `on_member_update` logs the roles added to and removed from a member.
- **Subscription buttons.** `SubscribeView.update_role` grants or revokes a
  role and keeps the `role_users` table in step.

Modules and state:

- Stateful commands are methods of one `Bot` class.
  - Its fields are the tables (`mutes`, `warnings`, `bomb_cooldowns`), the
    in-memory `bomb_info` dictionary and the set of members holding the
    mute role.
  - Each method's `ensures` gives the new state in terms of specification
    functions over the old state.
  - Those functions live in pure modules: `MuteLedger`, `WarningLog`,
    `Minigame`, `Duration`, `Decimal`, `AuditLog` and `RoleLog`.
- Time is integer seconds since 0001-01-01 (`Time.Stamp`). Adding a
  duration that leaves Python's `datetime` range is modelled as the
  `OverflowError` it raises (`Time.Shift` returns `None`).
- Discord itself appears only as inputs:
  - whether the guild has the mute role;
  - who holds it;
  - which members the guild resolves;
  - the button clicks on the confirmation view;
  - the moment `now`.
- `Scenarios` runs sequences of commands on a fresh `Bot` and states what
  comes out.

Points of `bot.py` the model keeps as written:

- Mutes stack rows: the `mutes` table has no key and `add_mute` is a plain
  INSERT, so a second mute of a member adds a second row. `get_mutes()`
  keeps each user's last row.
- The code range of `randint(1000, 2000)` includes 2000.
- The sweep lifts a mute only for a member the guild resolves and who still
  holds the role. Other ended rows stay in the table.
- A declined or timed-out confirmation deletes the guild's cooldown row.
- An exploded bomb stays in `bomb_info`, so its code still defuses it
  afterwards.

## Model

| member | source | states |
|---|---|---|
| Duration.ParseDuration | bot.py:906-916 | `None` exactly for the empty token or an unknown last character. The `int()` error escapes exactly when the suffix is known but the prefix is not an integer. Any result is a whole number of the suffix's unit. |
| Duration.ParseWrittenDuration | bot.py:906-916 | Every integer written out and followed by `d`, `h`, `m` or `s` parses to that integer times 86400, 3600, 60 or 1, negative numbers included. |
| Duration.HalfHour | bot.py:911-912 | `30m` parses to 1800 seconds. |
| Duration.OneDay | bot.py:792 | The `24h` of an escalated warning parses to 86400 seconds. |
| Duration.NegativeMinutes | bot.py:911-912 | A signed prefix is accepted: `-5m` is −300 seconds. |
| Duration.MalformedTokens | bot.py:906-916 | The empty token and a bare number give `None`; a bare suffix raises, because `int('')` fails. |
| Decimal.ParseIntRoundTrip | bot.py:908 | `int(str(n)) == n` for every integer `n` (without CPython's 4300-digit limit), the conversion `parse_duration` relies on. |
| Decimal.ParseIntNeedsDigit | bot.py:908 | `int()` rejects any string without a decimal digit. |
| Decimal.FourDigits | bot.py:618 | `str(n)` of a four-digit number is its four digits in order. |
| AuditLog.Parts | bot.py:336 | A message gives ⌈len/4000⌉ slices, so the empty message gives none. Every slice is non-empty and at most 4000 long, and all but the last are exactly 4000. |
| AuditLog.PartsConcat | bot.py:336-338 | Sending the slices one after another delivers exactly the original message. |
| RoleLog.MissingMembers | bot.py:345-346 | A role is listed exactly when it is in the first role list and not in the second. |
| RoleLog.DiffReconstructs | bot.py:344-346 | The new roles are the old ones minus those logged as removed plus those logged as added, and no role is logged both ways. |
| RoleLog.ReorderLogsNothing | bot.py:344-346 | Role lists holding the same roles in another order log nothing. |
| MuteLedger.CollapseKeepsLast | bot.py:122-128 | `get_mutes()` has a key for exactly the users with a row, and its value is that user's last row. |
| MuteLedger.Users | bot.py:128 | The dictionary's keys in iteration order, each listed once. |
| MuteLedger.UsersAreKeys | bot.py:128 | A user is among the keys iterated exactly when the user has a row. |
| MuteLedger.DropMembers | bot.py:138-143 | `remove_mute` keeps exactly the rows of other users. |
| MuteLedger.LastOfDrop | bot.py:138-143 | Deleting other users' rows does not change which row of a user is last; deleting the user's own leaves none. |
| MuteLedger.DropTwice | bot.py:138-143 | Two deletions in a row equal one deletion of both sets of users. |
| MuteLedger.DueMembers | bot.py:1026-1032 | A user is lifted by the sweep exactly when they hold the role, the guild resolves them, and their surviving row has ended. |
| MuteLedger.SweepStep | bot.py:1026-1035 | One loop step: the visited user loses the role and their rows exactly when they are due. |
| MuteLedger.SweepIdempotent | bot.py:1022-1035 | A second sweep at the same moment finds nobody due. |
| MuteLedger.NewRowDecides | bot.py:1026-1032 | A freshly appended row alone decides whether its user is lifted. |
| MuteLedger.SoleRow | bot.py:1026-1035 | With one row, the sweep lifts its user exactly from the row's end on, and then empties the table. |
| MuteLedger.ShorterRemuteDropsLongerRow | bot.py:1026-1035 | For any table, when a user's last two rows are a longer mute followed by a shorter one, the shorter one decides alone: once it ends, the sweep lifts the user and deletes both rows, including the longer one that has not ended. |
| MuteLedger.UpsertKeepsLast | bot.py:122-128 | `get_mutes()` cannot tell the keyless table from one that keeps a single row per user, replacing it on each mute: the last row of every user is the same. |
| MuteLedger.SweepSeesUpsert | bot.py:1025-1033 | The sweep lifts the same users whether rows stack as in `add_mute` or are replaced. |
| WarningLog.RowsOfMembers | bot.py:99-105 | `get_warnings(u)` returns exactly the rows of `u`. |
| WarningLog.DropUserRows | bot.py:115-120 | `remove_warnings(u)` leaves `u` no rows and every other user all of theirs. |
| WarningLog.NewWarningCounts | bot.py:784-790 | The count compared with 3 is the number of the user's warnings younger than a day plus one for the new warning. |
| WarningLog.StaleNotRecent | bot.py:785 | Warnings at least a day old are filtered out. |
| WarningLog.FreshAllRecent | bot.py:785 | Warnings younger than a day all pass the filter. |
| WarningLog.CountAt | bot.py:784-791 | With the user's rows split into aged and young ones, the count is the number of young ones plus one. |
| WarningLog.ClearedCountRestarts | bot.py:792-793 | After the warnings are cleared, the next warning counts alone and does not escalate. |
| WarningLog.ThirdWarningEscalates | bot.py:781-796 | Three warnings within a day, with no earlier warning younger than a day: the first two only warn, and the third escalates and leaves the user no warnings. |
| WarningLog.ListingMembers | bot.py:835-840 | `warnings(u)` lists every warning of `u` and nothing else. |
| WarningLog.ListingNewestFirst | bot.py:838-839 | For a table appended in time order, the listing runs newest first. |
| WarningLog.RowsOfChronological | bot.py:99-105 | A user's rows of a table in time order are in time order. |
| Minigame.Hint | bot.py:617-619 | The hint has 4 characters: the code's thousands digit, `X`, its tens digit, `X`. |
| Minigame.HintExample | bot.py:617-619 | Code 1732 gives the hint `1X3X`. |
| Minigame.HintShared | bot.py:617-619 | Two codes share a hint exactly when their thousands and tens digits agree. |
| Minigame.AnswerIsFirstAuthorClick | bot.py:555-572 | The view's value is `b` exactly when the author pressed the button for `b` and did not press before. Others' presses are ignored. |
| Minigame.NoAuthorClickTimesOut | bot.py:555-572 | Without a press by the author, the view times out with `None`. |
| Minigame.Breakdown | bot.py:581-586 | The remaining seconds are the days, hours, minutes and seconds of the breakdown, with hours below 24 and minutes below 60. |
| Minigame.RetryPartsExact | bot.py:580-595 | The time named in the cooldown message is at most the time left and less than a minute short of it. |
| Minigame.RetryPartsBounded | bot.py:587-594 | Every named part is positive; hours are below 24 and minutes below 60. |
| Minigame.RetryPartsEmpty | bot.py:587-595 | The message names no time exactly when less than a minute is left. |
| Moderation.Bot.constructor | bot.py:36 | The bot starts on the given tables and with `bomb_info` empty. |
| Moderation.Bot.AddMute | bot.py:130-136 | `add_mute` appends one row, whatever rows the user already has. |
| Moderation.Bot.RemoveMute | bot.py:138-143 | `remove_mute` deletes every row of the user. |
| Moderation.Bot.AddWarning | bot.py:107-113 | `add_warning` appends one row stamped `now`. |
| Moderation.Bot.RemoveWarnings | bot.py:115-120 | `remove_warnings` deletes every row of the user. |
| Moderation.Bot.SetCooldown | bot.py:153-158 | `set_bomb_cooldown` inserts or replaces the guild's row. |
| Moderation.Bot.RemoveCooldown | bot.py:160-165 | `remove_bomb_cooldown` deletes the guild's row. |
| Moderation.Bot.Mute | bot.py:401-420 | Nothing changes without the role, or for an unrecognised duration or one `int()` rejects. Otherwise the member gets the role. The row `(user, now + seconds, reason)` is appended only when that end is a valid datetime; otherwise the command raises after granting the role. |
| Moderation.Bot.Unmute | bot.py:422-433 | It acts exactly when the member holds the role: the member loses it and all their rows. Otherwise nothing changes. |
| Moderation.Bot.Visit | bot.py:1027-1035 | One snapshot entry. Past its end, the run raises if the guild does not resolve. Otherwise a resolved member holding the role loses it and all their rows. |
| Moderation.Bot.SweepVisit | bot.py:1026-1035 | Visiting one more user extends the users lifted so far by that user exactly when the user is due. |
| Moderation.Bot.Sweep | bot.py:1022-1035 | It raises exactly when the guild does not resolve and some surviving row has ended, and then nothing changes. Otherwise exactly the due users lose the role and all their rows. The model allows later runs after a raise; see Left out. |
| Moderation.Bot.Warn | bot.py:781-796 | Within the first day of the calendar the cut-off a day back overflows: the command raises, having recorded the warning only when the user had none before. Otherwise one warning is appended, and the command escalates exactly when the count reaches 3. An escalation mutes for a day and clears the user's warnings, unless the mute raised. |
| Moderation.Bot.WarnRemove | bot.py:822-831 | The warnings are cleared, and reported cleared, exactly when the user has any. |
| Moderation.Bot.Bomb | bot.py:574-629 | <ul><li>Refused with the time left while the cooldown lies ahead; nothing changes.</li><li>A decline or timeout deletes the cooldown row and plants nothing.</li><li>A confirmation plants the code for an hour after the clock reading taken once the view answered, and sets the cooldown a week after the next reading.</li><li>Each datetime overflow raises at its own point.</li></ul> |
| Moderation.Bot.Defuse | bot.py:638-649 | Without a bomb, nothing happens. The right code removes the bomb at any time; a wrong guess changes nothing. |
| Moderation.Bot.Expire | bot.py:631-636 | The bomb explodes exactly when the guild's entry is still there and its end has come. The channel is then mass-muted and the entry stays. |
| Moderation.Bot.MassMute | bot.py:527-544 | If the guild has the role, every channel member but the bot gets it. |
| Moderation.Bot.MassRelease | bot.py:546-553 | If the guild has the role, the same members lose it, however they got it. |
| Scenarios.MuteRunsOut | bot.py:1022-1035 | A mute of any positive parsed length, then the sweep at its end, leaves the member unmuted and the table empty. |
| Scenarios.SweepBeforeEnd | bot.py:1026-1027 | A sweep before a member's only mute ends leaves the member muted and the row in place. |
| Scenarios.ThirdWarningMutes | bot.py:790-793 | The third warning within a day mutes the member for a day and leaves them no warnings. |
| Scenarios.PlantTwice | bot.py:576-629 | A second `bomb` in the guild within a week of the first cooldown write is refused with the exact time left until then. |
| Scenarios.ExplodedBombStillDefuses | bot.py:633-645 | An undefused bomb explodes after its hour and mutes the channel, and its code still defuses it afterwards. |
| Scenarios.MassMuteStrandsRow | bot.py:546-553 | A muted member caught in a mass mute loses the role when the mass mute ends. Their row then outlives the sweep at its own end. |
| Subscription.RoleUsersDisjoint | bot.py:77-80 | `user_id` is the key of `role_users`, so `get_role_users` lists no user under two different roles. |
| Subscription.AddUserMoves | bot.py:725-730 | After `add_user_to_db`, the user is listed under the new role and under no other; nobody else moves. |
| Subscription.RemoveUserLeaves | bot.py:732-737 | After `remove_user_from_db`, the user is listed under no role; nobody else moves. |
| Subscription.Directory.AddUser | bot.py:725-730 | The user's row becomes the given role, replacing any earlier row. |
| Subscription.Directory.RemoveUser | bot.py:732-737 | The user's row is deleted, whichever role it names. |
| Subscription.Directory.UpdateRole | bot.py:679-723 | Each of the five outcomes (unknown role, granted, already has, revoked, does not have) happens exactly in its case. Only a grant or a revocation changes the roles and the table. After a grant, `get_role_users` lists the user under that role and no other; after a revocation, under none. If every row named a role its user holds before, that stays so. |
| Subscription.TwoRoles | bot.py:690-717 | A member who takes two roles is listed only under the second. Giving that one up leaves them holding the first with no row at all. |

## Left out

- **Discord plumbing.** The client, the command decorators and the
  permission checks are not modelled. The error handlers only choose
  message text. All sent messages and log lines are left out.
- **Member lookup.** Role lookups and member resolution are parameters:
  `hasMuteRole`, the `muted` set and the `present` set of `check_mutes`.
- **Discord failures.** An exception raised by `add_roles` or
  `remove_roles` is not modelled.
- **SQLite and timestamps.** The SQLite connection and the
  `isoformat`/`fromisoformat` round trip are replaced by in-memory fields
  holding integer seconds. Microseconds are dropped.
- **Twitch and YouTube.** The polling code is not part of this model; it is
  network clients only.
- **asyncio.** `asyncio.sleep`, `asyncio.gather` and the interleaving of
  commands are not modelled. The delayed end of `bomb` is the separate
  `Expire` step. The delayed half of `mute_all` is the separate
  `MassRelease`. The race between the cooldown check and the cooldown write
  across the confirmation wait is not modelled.
- **Randomness.** The code `randint(1000, 2000)` is a parameter with a range
  precondition. The confirmation view's presses are a sequence of clicks.
  The roulette and one-minute joke mutes and the canned replies are not
  modelled.
- Minigame.RetryParts: the cooldown message works on the float
  `total_seconds()`. The model uses whole seconds and does not model
  fractions of a second.
- Decimal.ParseInt: `int()` also accepts non-ASCII decimal digits. The
  model accepts ASCII digits only. CPython's `int()` and `str()` also raise
  `ValueError` for numerals longer than 4300 digits; the model has no such
  limit, so `ParseIntRoundTrip` holds for every integer only in the model.
  No Discord message is long enough to carry such a duration token.
- **`defuse` guess conversion.** A non-numeric guess is rejected by the
  command framework before `defuse` runs, so the model takes an integer
  guess.
- Moderation.Bot: one guild is modelled for the mute role and its
  holders. The cooldowns and bombs are keyed by guild.
- MuteLedger.Upsert: this is not behaviour of the bot. It is a keyed
  variant of the `mutes` table, one row per user and replaced on each mute,
  kept only for comparison in `UpsertKeepsLast`, `UpsertIsKeyed` and
  `SweepSeesUpsert`.
- Moderation.Bot.Warn: the clock readings at bot.py:785, 787 (inside
  `add_warning`), 788 and 790, and the one inside the escalation's `mute`,
  are taken as one moment `now`.
- Moderation.Bot.Bomb: the comparison at bot.py:579 and the remaining time
  at bot.py:580 share one clock reading `now`.
- Moderation.Bot.Sweep: when a run raises, `tasks.loop` stops the
  `check_mutes` task until the bot restarts. The model still allows later
  `Sweep` calls, each as if the task were running again.
- SQLite row order: the SELECTs without ORDER BY at bot.py:102 and
  bot.py:125 are taken to return rows in insertion (rowid) order. The model's
  last row winning in `get_mutes()`, the key order of `Users` and the
  newest-first listing of `warnings` rest on that.
