/**
 * The membership state machine: the updates `setadmin`, `setmembertype`
 * and `leave` perform on the `clan_member` table, as functions from the
 * table before the statement to the table after it.
 *
 * Each update's WHERE clause holds its own authorisation test ("the
 * caller has an admin row in the clan of the row being changed"); like
 * the database, the functions evaluate that test on the table as it was
 * before the statement.
 */
module MembershipRules {
  import opened ClanModel

  // ---------------------------------------------------------------- setadmin

  /** Row `x` is selected by setadmin's update: it belongs to the target, is not Pending or Banned,
      and the caller is an admin of its clan. */
  predicate AdminChangeable(rows: seq<Membership>, caller: MemberId, target: MemberId, x: Membership)
  {
    x.memberId == target && !Waiting(x.kind) && IsAdminOf(rows, caller, x.clanId)
  }

  /** setadmin reports success exactly when its update returns a row. */
  predicate SetAdminApplies(rows: seq<Membership>, caller: MemberId, target: MemberId)
  {
    exists x :: x in rows && AdminChangeable(rows, caller, target, x)
  }

  /** The table after `update clan_member set admin = flag where ...`. */
  function WithAdminFlag(rows: seq<Membership>, caller: MemberId, target: MemberId, flag: bool): (r: seq<Membership>)
    ensures |r| == |rows|
    // only the admin column can change ...
    ensures forall i :: 0 <= i < |rows| ==> r[i].(admin := rows[i].admin) == rows[i]
    // ... only on the selected rows ...
    ensures forall i :: 0 <= i < |rows| && !AdminChangeable(rows, caller, target, rows[i]) ==> r[i] == rows[i]
    // ... and every selected row ends up with the requested flag
    ensures forall i :: 0 <= i < |rows| && AdminChangeable(rows, caller, target, rows[i]) ==> r[i].admin == flag
  {
    seq(|rows|, i requires 0 <= i < |rows| =>
      if AdminChangeable(rows, caller, target, rows[i]) then rows[i].(admin := flag) else rows[i])
  }

  /** A refused setadmin (no selected row) leaves the table exactly as it was. */
  lemma SetAdminRefusedIsNoop(rows: seq<Membership>, caller: MemberId, target: MemberId, flag: bool)
    requires !SetAdminApplies(rows, caller, target)
    ensures WithAdminFlag(rows, caller, target, flag) == rows
  {
  }

  /** setadmin never makes a Pending or Banned row an admin row. */
  lemma SetAdminKeepsNoWaitingAdmin(rows: seq<Membership>, caller: MemberId, target: MemberId, flag: bool)
    requires NoWaitingAdmin(rows)
    ensures NoWaitingAdmin(WithAdminFlag(rows, caller, target, flag))
  {
  }

  // ----------------------------------------------------------- setmembertype

  /** Row `x` is selected by setmembertype's update: it belongs to the target, is Pending,
      and the caller is an admin of its clan. */
  predicate Approvable(rows: seq<Membership>, caller: MemberId, target: MemberId, x: Membership)
  {
    x.memberId == target && x.kind == Pending && IsAdminOf(rows, caller, x.clanId)
  }

  /** setmembertype reports success exactly when its update returns a row. */
  predicate SetMemberTypeApplies(rows: seq<Membership>, caller: MemberId, target: MemberId)
  {
    exists x :: x in rows && Approvable(rows, caller, target, x)
  }

  /** The table after `update clan_member set type = kind where ...`. */
  function WithKind(rows: seq<Membership>, caller: MemberId, target: MemberId, kind: string): (r: seq<Membership>)
    ensures |r| == |rows|
    // only the type column can change; in particular no admin flag moves ...
    ensures forall i :: 0 <= i < |rows| ==> r[i].(kind := rows[i].kind) == rows[i]
    // ... only on the selected (Pending) rows ...
    ensures forall i :: 0 <= i < |rows| && !Approvable(rows, caller, target, rows[i]) ==> r[i] == rows[i]
    // ... and every selected row gets the requested type
    ensures forall i :: 0 <= i < |rows| && Approvable(rows, caller, target, rows[i]) ==> r[i].kind == kind
  {
    seq(|rows|, i requires 0 <= i < |rows| =>
      if Approvable(rows, caller, target, rows[i]) then rows[i].(kind := kind) else rows[i])
  }

  /** A target without any Pending row cannot be re-typed: setmembertype fails and changes nothing. */
  lemma SetMemberTypeNeedsPending(rows: seq<Membership>, caller: MemberId, target: MemberId, kind: string)
    requires forall x :: x in rows && x.memberId == target ==> x.kind != Pending
    ensures !SetMemberTypeApplies(rows, caller, target)
    ensures WithKind(rows, caller, target, kind) == rows
  {
  }

  /** setmembertype keeps the invariant whatever type it writes: it only rewrites Pending rows,
      which are not admin rows, and it leaves their admin flag alone. */
  lemma SetMemberTypeKeepsNoWaitingAdmin(rows: seq<Membership>, caller: MemberId, target: MemberId, kind: string)
    requires NoWaitingAdmin(rows)
    ensures NoWaitingAdmin(WithKind(rows, caller, target, kind))
  {
  }

  // --------------------------------------------------------- authorisation

  /** Neither gated update lets a caller change the admin flag of a row outside the clans the caller
      administers: a flag moves only on a row of the target, in a clan where the caller is admin. */
  lemma AdminFlagMovesOnlyInCallersClans(rows: seq<Membership>, caller: MemberId, target: MemberId, flag: bool, kind: string)
    ensures forall i :: 0 <= i < |rows| && WithAdminFlag(rows, caller, target, flag)[i].admin != rows[i].admin ==>
              rows[i].memberId == target && IsAdminOf(rows, caller, rows[i].clanId)
    ensures forall i :: 0 <= i < |rows| ==> WithKind(rows, caller, target, kind)[i].admin == rows[i].admin
  {
  }

  /** A caller who is not an admin of clan `c` changes no row of `c` with either update, and against
      a target whose rows all lie in `c` both updates report failure. */
  lemma OutsiderChangesNothing(rows: seq<Membership>, caller: MemberId, c: ClanId, target: MemberId, flag: bool, kind: string)
    requires !IsAdminOf(rows, caller, c)
    ensures forall i :: 0 <= i < |rows| && rows[i].clanId == c ==>
              WithAdminFlag(rows, caller, target, flag)[i] == rows[i] && WithKind(rows, caller, target, kind)[i] == rows[i]
    ensures (forall x :: x in rows && x.memberId == target ==> x.clanId == c) ==>
              !SetAdminApplies(rows, caller, target) && !SetMemberTypeApplies(rows, caller, target)
  {
  }

  // -------------------------------------------------------------- join

  /** The table after join's insert: one Pending, non-admin row for the caller. */
  function Joined(rows: seq<Membership>, id: int, c: ClanId, m: MemberId): (r: seq<Membership>)
    ensures |r| == |rows| + 1 && r[..|rows|] == rows
    ensures r[|rows|].clanId == c && r[|rows|].memberId == m && r[|rows|].kind == Pending && !r[|rows|].admin
    ensures NoWaitingAdmin(rows) ==> NoWaitingAdmin(r)
  {
    rows + [Membership(id, c, m, Pending, false)]
  }

  /** join followed by setmembertype from an admin of the same clan turns the new Pending row into
      the requested type, reports success, and touches no other row. */
  lemma JoinThenApprove(rows: seq<Membership>, id: int, c: ClanId, admin: MemberId, newcomer: MemberId, kind: string)
    requires IsAdminOf(rows, admin, c)
    requires forall x :: x in rows ==> x.memberId != newcomer
    ensures SetMemberTypeApplies(Joined(rows, id, c, newcomer), admin, newcomer)
    ensures WithKind(Joined(rows, id, c, newcomer), admin, newcomer, kind) == rows + [Membership(id, c, newcomer, kind, false)]
  {
    var joined := Joined(rows, id, c, newcomer);
    var x :| x in rows && x.memberId == admin && x.admin && x.clanId == c;
    assert x in joined;
    assert Approvable(joined, admin, newcomer, joined[|rows|]);
    assert joined[|rows|] in joined;
    var r := WithKind(joined, admin, newcomer, kind);
    forall i | 0 <= i < |rows| ensures r[i] == rows[i] {
      assert joined[i] == rows[i] && rows[i] in rows;
    }
  }

  // ------------------------------------------------------------- leave

  /** The table after `delete from clan_member where member_id = m`. */
  function WithoutMember(rows: seq<Membership>, m: MemberId): (r: seq<Membership>)
    ensures forall x :: x in r ==> x.memberId != m
    ensures forall x: Membership :: x.memberId != m ==> multiset(r)[x] == multiset(rows)[x]
  {
    if rows == [] then []
    else
      assert rows == [rows[0]] + rows[1..];
      (if rows[0].memberId == m then [] else [rows[0]]) + WithoutMember(rows[1..], m)
  }

  /** Deleting the rows of a member who has none is the identity. */
  lemma {:induction false} WithoutAbsentMember(rows: seq<Membership>, m: MemberId)
    requires forall x :: x in rows ==> x.memberId != m
    ensures WithoutMember(rows, m) == rows
  {
    if rows != [] {
      assert rows[0] in rows;
      forall x | x in rows[1..] ensures x.memberId != m {
        assert x in rows;
      }
      WithoutAbsentMember(rows[1..], m);
      assert rows == [rows[0]] + rows[1..];
    }
  }

  /** leave is idempotent: a second leave finds nothing more to delete. */
  lemma {:induction false} LeaveIdempotent(rows: seq<Membership>, m: MemberId)
    ensures WithoutMember(WithoutMember(rows, m), m) == WithoutMember(rows, m)
  {
    WithoutAbsentMember(WithoutMember(rows, m), m);
  }

  /** leave only deletes, so it keeps the invariant. */
  lemma LeaveKeepsNoWaitingAdmin(rows: seq<Membership>, m: MemberId)
    requires NoWaitingAdmin(rows)
    ensures NoWaitingAdmin(WithoutMember(rows, m))
  {
  }
}
