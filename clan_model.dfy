/**
 * The tables the clan handlers read and write, as values.
 *
 * The store holds three tables: `clan`, `clan_member` and `clan_object`.
 * Each is a sequence of rows; the order of a sequence stands for the
 * (unspecified) order in which the database returns rows.
 */
module ClanModel {

  type MemberId = int
  type ClanId = int

  /** A stored object value: the serialized payload, never inspected here. */
  type Payload = string

  /** Membership types written by the handlers themselves. */
  const Founder: string := "Founder"
  const Pending: string := "Pending"
  const Banned: string := "Banned"

  datatype Option<T> = None | Some(value: T)

  /** A row of `clan`. */
  datatype Clan = Clan(id: ClanId, name: string, kind: string)

  /** A row of `clan_member`; `kind` is the column `type`, any string. */
  datatype Membership = Membership(id: int, clanId: ClanId, memberId: MemberId, kind: string, admin: bool)

  /** A row of `clan_object`. */
  datatype ClanObject = ClanObject(clanId: ClanId, memberId: MemberId, key: string, value: Payload)

  /** The caller holds an admin row in clan `c`: the authorisation test every write embeds. */
  predicate IsAdminOf(rows: seq<Membership>, m: MemberId, c: ClanId)
  {
    exists x :: x in rows && x.memberId == m && x.admin && x.clanId == c
  }

  /** `m` holds some row (of any type) in clan `c`. */
  predicate HasRowIn(rows: seq<Membership>, m: MemberId, c: ClanId)
  {
    exists x :: x in rows && x.memberId == m && x.clanId == c
  }

  /** A membership type that may not carry the admin flag. */
  predicate Waiting(kind: string)
  {
    kind == Pending || kind == Banned
  }

  /** The invariant of the membership table: no Pending or Banned row is an admin row. */
  predicate NoWaitingAdmin(rows: seq<Membership>)
  {
    forall x :: x in rows && Waiting(x.kind) ==> !x.admin
  }
}
