/**
 * Logging of member updates: when a member's role list changes, the bot logs
 * the roles that appear only in the new list as added and the roles that
 * appear only in the old list as removed.
 */
module RoleLog {

  import opened Ids

  /** `[x for x in xs if x not in ys]`: keeps the order of `xs`. */
  function Missing(xs: seq<RoleId>, ys: seq<RoleId>): (r: seq<RoleId>)
    ensures |r| <= |xs|
  {
    if xs == [] then []
    else (if xs[0] in ys then [] else [xs[0]]) + Missing(xs[1..], ys)
  }

  /** The roles logged as added and as removed when a member's role list changes. */
  function RoleDiff(before: seq<RoleId>, after: seq<RoleId>): (diff: (seq<RoleId>, seq<RoleId>))
  {
    (Missing(after, before), Missing(before, after))
  }

  /** A role is listed exactly when it is in the first list and not in the second. */
  lemma {:induction false} MissingMembers(xs: seq<RoleId>, ys: seq<RoleId>, x: RoleId)
    ensures x in Missing(xs, ys) <==> x in xs && x !in ys
  {
    if xs != [] {
      MissingMembers(xs[1..], ys, x);
      assert xs == [xs[0]] + xs[1..];
    }
  }

  /**
   * The two lists describe the change completely: removing the logged
   * removals from the old roles and adding the logged additions gives the
   * new roles, and no role is logged both ways.
   */
  lemma DiffReconstructs(before: seq<RoleId>, after: seq<RoleId>)
    ensures var (added, removed) := RoleDiff(before, after);
      forall r :: (r in after <==> (r in before && r !in removed) || r in added) && !(r in added && r in removed)
  {
    var (added, removed) := RoleDiff(before, after);
    forall r
      ensures r in added <==> r in after && r !in before
      ensures r in removed <==> r in before && r !in after
    {
      MissingMembers(after, before, r);
      MissingMembers(before, after, r);
    }
  }

  /** Nothing is missing from a list that holds every element. */
  lemma {:induction false} NoneMissing(xs: seq<RoleId>, ys: seq<RoleId>)
    requires forall i :: 0 <= i < |xs| ==> xs[i] in ys
    ensures Missing(xs, ys) == []
  {
    if xs != [] {
      assert xs[0] in ys;
      NoneMissing(xs[1..], ys);
    }
  }

  /** A list that only reorders the roles (each list holds every role of the other) logs nothing. */
  lemma ReorderLogsNothing(before: seq<RoleId>, after: seq<RoleId>)
    requires forall i :: 0 <= i < |before| ==> before[i] in after
    requires forall j :: 0 <= j < |after| ==> after[j] in before
    ensures RoleDiff(before, after) == ([], [])
  {
    NoneMissing(after, before);
    NoneMissing(before, after);
  }
}
