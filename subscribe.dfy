/**
 * The subscription buttons: a member presses "get role" or "give up role"
 * for the view's role, and the bot grants or revokes the role and keeps the
 * `role_users` table in step. The table is keyed by user, so it remembers
 * one role per user.
 */
module Subscription {

  import opened Ids

  datatype UpdateOutcome = RoleNotFound | Granted | AlreadyHas | Revoked | DoesNotHave

  /** `get_role_users(role)`: the users whose row names `role`. */
  function RoleUsers(table: map<UserId, RoleId>, role: RoleId): (users: set<UserId>)
    ensures forall u :: u in users <==> u in table && table[u] == role
  {
    set u | u in table && table[u] == role
  }

  /** The table is keyed by user, so no user is listed under two roles. */
  lemma RoleUsersDisjoint(table: map<UserId, RoleId>, r1: RoleId, r2: RoleId)
    requires r1 != r2
    ensures RoleUsers(table, r1) !! RoleUsers(table, r2)
  {
    forall u | u in RoleUsers(table, r1)
      ensures u !in RoleUsers(table, r2)
    {
    }
  }

  /** Recording a user under `role` adds them to that role's list and takes them off every other. */
  lemma AddUserMoves(table: map<UserId, RoleId>, user: UserId, role: RoleId, r: RoleId)
    ensures RoleUsers(table[user := role], r) ==
      if r == role then RoleUsers(table, r) + {user} else RoleUsers(table, r) - {user}
  {
  }

  /** Deleting a user's row takes them off the list of whichever role it named, and of no other. */
  lemma RemoveUserLeaves(table: map<UserId, RoleId>, user: UserId, r: RoleId)
    ensures RoleUsers(table - {user}, r) == RoleUsers(table, r) - {user}
  {
  }

  class Directory {
    /** The roles the guild has. */
    const guildRoles: set<RoleId>
    /** Which member holds which role. */
    var holds: set<(UserId, RoleId)>
    /** `role_users`: `user_id` is the primary key. */
    var roleUsers: map<UserId, RoleId>

    /** Every row of the table names a role its user holds. */
    predicate Tracked()
      reads this
    {
      forall u :: u in roleUsers ==> (u, roleUsers[u]) in holds
    }

    constructor (guildRoles: set<RoleId>, holds: set<(UserId, RoleId)>, roleUsers: map<UserId, RoleId>)
      ensures this.guildRoles == guildRoles && this.holds == holds && this.roleUsers == roleUsers
    {
      this.guildRoles := guildRoles;
      this.holds := holds;
      this.roleUsers := roleUsers;
    }

    /** `add_user_to_db`: INSERT OR REPLACE, so the user's previous row, for whatever role, is overwritten. */
    method AddUser(user: UserId, role: RoleId)
      modifies this`roleUsers
      ensures roleUsers == old(roleUsers)[user := role]
    {
      roleUsers := roleUsers[user := role];
    }

    /** `remove_user_from_db`: deletes the user's row, whatever role it names. */
    method RemoveUser(user: UserId)
      modifies this`roleUsers
      ensures roleUsers == old(roleUsers) - {user}
    {
      roleUsers := roleUsers - {user};
    }

    /**
     * `SubscribeView.update_role`: a role the guild lacks is reported; a
     * grant to a member without the role adds it and records the user, a
     * revocation from a member with the role removes it and the user's row;
     * the other two cases only answer.
     */
    method UpdateRole(role: RoleId, user: UserId, add: bool) returns (outcome: UpdateOutcome)
      modifies this`holds, this`roleUsers
      ensures old(Tracked()) ==> Tracked()
      ensures role !in guildRoles ==> outcome == RoleNotFound
      ensures role in guildRoles && add ==>
        outcome == (if (user, role) in old(holds) then AlreadyHas else Granted)
      ensures role in guildRoles && !add ==>
        outcome == (if (user, role) in old(holds) then Revoked else DoesNotHave)
      ensures outcome == Granted ==> holds == old(holds) + {(user, role)} && roleUsers == old(roleUsers)[user := role]
      ensures outcome == Revoked ==> holds == old(holds) - {(user, role)} && roleUsers == old(roleUsers) - {user}
      ensures outcome != Granted && outcome != Revoked ==> holds == old(holds) && roleUsers == old(roleUsers)
      ensures outcome == Granted ==> forall r :: user in RoleUsers(roleUsers, r) <==> r == role
      ensures outcome == Revoked ==> forall r :: user !in RoleUsers(roleUsers, r)
    {
      if role !in guildRoles {
        return RoleNotFound;
      }
      if add {
        if (user, role) !in holds {
          holds := holds + {(user, role)};
          AddUser(user, role);
          outcome := Granted;
        } else {
          outcome := AlreadyHas;
        }
      } else {
        if (user, role) in holds {
          holds := holds - {(user, role)};
          RemoveUser(user);
          outcome := Revoked;
        } else {
          outcome := DoesNotHave;
        }
      }
    }
  }

  /**
   * A member who takes two subscription roles is listed only under the
   * second, and giving up the second leaves them holding the first with no
   * row at all.
   */
  method TwoRoles(user: UserId, first: RoleId, second: RoleId)
    returns (listedFirst: bool, listedSecond: bool, holdsFirst: bool, rowAfterRevoke: bool)
    requires first != second
    ensures !listedFirst && listedSecond
    ensures holdsFirst && !rowAfterRevoke
  {
    var directory := new Directory({first, second}, {}, map[]);
    var a := directory.UpdateRole(first, user, true);
    var b := directory.UpdateRole(second, user, true);
    listedFirst := user in RoleUsers(directory.roleUsers, first);
    listedSecond := user in RoleUsers(directory.roleUsers, second);
    var c := directory.UpdateRole(second, user, false);
    holdsFirst := (user, first) in directory.holds;
    rowAfterRevoke := user in directory.roleUsers;
  }
}
