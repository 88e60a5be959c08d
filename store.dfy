/**
 * The store the clan handlers share, and one method per handler.
 *
 * Each handler is one atomic step on the three tables. A handler whose
 * statements run inside `try`/`except` takes a `rejected` flag standing
 * for "the database raised" (a constraint the schema imposes, a bad
 * parameter): then the handler rolls back and returns false, and the tables
 * are as they were.
 */
module ClanStore {
  import opened ClanModel
  import opened MembershipRules
  import opened ClanObjects
  import opened ClanQueries

  class Store {
    var clans: seq<Clan>
    var rows: seq<Membership>
    var objects: seq<ClanObject>
    /** The `member` table (id to handle): owned elsewhere, only read here. */
    var handles: map<MemberId, string>
    /** The next values of the serial columns `clan.id` and `clan_member.id`. */
    var nextClanId: ClanId
    var nextRowId: int

    /** Serial ids are ahead of every stored id, and no Pending or Banned row is an admin row. */
    ghost predicate Valid()
      reads this
    {
      && NoWaitingAdmin(rows)
      && (forall k :: k in clans ==> k.id < nextClanId)
      && (forall x :: x in rows ==> x.id < nextRowId)
    }

    constructor (handles: map<MemberId, string>)
      ensures Valid()
      ensures clans == [] && rows == [] && objects == [] && this.handles == handles
    {
      clans, rows, objects := [], [], [];
      this.handles := handles;
      nextClanId, nextRowId := 1, 1;
    }

    /** create: a new clan with a fresh id and its founder row (Founder, admin), both or neither. */
    method Create(caller: MemberId, name: string, kind: string, rejected: bool) returns (ok: bool)
      requires Valid()
      modifies this
      ensures Valid()
      ensures ok == !rejected
      ensures ok ==> forall k :: k in old(clans) ==> k.id != old(nextClanId)
      ensures ok ==> clans == old(clans) + [Clan(old(nextClanId), name, kind)]
      ensures ok ==> rows == old(rows) + [Membership(old(nextRowId), old(nextClanId), caller, Founder, true)]
      ensures !ok ==> clans == old(clans) && rows == old(rows)
      ensures objects == old(objects) && handles == old(handles)
    {
      if rejected {
        return false;
      }
      var id := nextClanId;
      clans := clans + [Clan(id, name, kind)];
      nextClanId := nextClanId + 1;
      rows := rows + [Membership(nextRowId, id, caller, Founder, true)];
      nextRowId := nextRowId + 1;
      ok := true;
    }

    /** join: a Pending, non-admin row for the caller in the given clan. */
    method Join(caller: MemberId, clanId: ClanId, rejected: bool) returns (ok: bool)
      requires Valid()
      modifies this
      ensures Valid()
      ensures ok == !rejected
      ensures rows == if ok then Joined(old(rows), old(nextRowId), clanId, caller) else old(rows)
      ensures clans == old(clans) && objects == old(objects) && handles == old(handles)
    {
      if rejected {
        return false;
      }
      rows := Joined(rows, nextRowId, clanId, caller);
      nextRowId := nextRowId + 1;
      ok := true;
    }

    /** leave: every row of the caller goes; always reports success. */
    method Leave(caller: MemberId) returns (ok: bool)
      requires Valid()
      modifies this
      ensures Valid()
      ensures ok
      ensures rows == WithoutMember(old(rows), caller)
      ensures clans == old(clans) && objects == old(objects) && handles == old(handles)
      ensures nextClanId == old(nextClanId) && nextRowId == old(nextRowId)
    {
      LeaveKeepsNoWaitingAdmin(rows, caller);
      var r := WithoutMember(rows, caller);
      forall x | x in r ensures x.id < nextRowId {
        assert multiset(r)[x] > 0;
        assert x in rows;
      }
      rows := r;
      ok := true;
    }

    /** setadmin: set the admin flag on the target's non-Pending, non-Banned rows in clans the caller
        administers; success means at least one row was updated. */
    method SetAdmin(caller: MemberId, target: MemberId, flag: bool, rejected: bool) returns (ok: bool)
      requires Valid()
      modifies this
      ensures Valid()
      ensures ok == (!rejected && SetAdminApplies(old(rows), caller, target))
      ensures rows == if rejected then old(rows) else WithAdminFlag(old(rows), caller, target, flag)
      ensures !ok ==> rows == old(rows)
      ensures clans == old(clans) && objects == old(objects) && handles == old(handles)
      ensures nextClanId == old(nextClanId) && nextRowId == old(nextRowId)
    {
      if rejected {
        return false;
      }
      ok := SetAdminApplies(rows, caller, target);
      if !ok {
        SetAdminRefusedIsNoop(rows, caller, target, flag);
      }
      SetAdminKeepsNoWaitingAdmin(rows, caller, target, flag);
      var r := WithAdminFlag(rows, caller, target, flag);
      forall x | x in r ensures x.id < nextRowId {
        var i :| 0 <= i < |r| && r[i] == x;
        assert rows[i] in rows;
      }
      rows := r;
    }

    /** setmembertype: set the type of the target's Pending rows in clans the caller administers;
        success means at least one row was updated. */
    method SetMemberType(caller: MemberId, target: MemberId, kind: string, rejected: bool) returns (ok: bool)
      requires Valid()
      modifies this
      ensures Valid()
      ensures ok == (!rejected && SetMemberTypeApplies(old(rows), caller, target))
      ensures rows == if rejected then old(rows) else WithKind(old(rows), caller, target, kind)
      ensures !ok ==> rows == old(rows)
      ensures clans == old(clans) && objects == old(objects) && handles == old(handles)
      ensures nextClanId == old(nextClanId) && nextRowId == old(nextRowId)
    {
      if rejected {
        return false;
      }
      ok := SetMemberTypeApplies(rows, caller, target);
      var r := WithKind(rows, caller, target, kind);
      if !ok {
        forall i | 0 <= i < |rows| ensures r[i] == rows[i] {
          assert rows[i] in rows;
        }
      }
      SetMemberTypeKeepsNoWaitingAdmin(rows, caller, target, kind);
      forall x | x in r ensures x.id < nextRowId {
        var i :| 0 <= i < |r| && r[i] == x;
        assert rows[i] in rows;
      }
      rows := r;
    }

    /** set_object: overwrite the key's objects in the clans the caller administers, or, when there
        are none, add one per such clan (the insert path as intended). */
    method SetObject(caller: MemberId, key: string, value: Payload)
      requires Valid()
      modifies this
      ensures Valid()
      ensures objects == StoredObjects(old(objects), old(rows), caller, key, value)
      ensures clans == old(clans) && rows == old(rows) && handles == old(handles)
      ensures nextClanId == old(nextClanId) && nextRowId == old(nextRowId)
    {
      objects := StoredObjects(objects, rows, caller, key, value);
    }

    /** get_object: a value stored under the key in a clan where the reader has a row, or nothing. */
    function GetObject(reader: MemberId, key: string): (r: Option<Payload>)
      reads this
      ensures r.None? <==> forall o :: o in objects ==> !Readable(rows, reader, key, o)
      ensures r.Some? ==> exists o :: o in objects && Readable(rows, reader, key, o) && o.value == r.value
    {
      Lookup(objects, rows, reader, key)
    }

    /** members: the caller's clan and its roster, gathered row by row. */
    method Members(caller: MemberId) returns (r: Roster)
      requires AtMostOneRow(rows, caller)
      ensures r == RosterOf(clans, rows, handles, caller)
    {
      r := Roster(None, []);
      var c := ClanOfMember(rows, caller);
      if c.None? {
        return;
      }
      var k := FindClan(clans, c.value);
      if k.None? {
        return;
      }
      var entries: seq<MemberEntry> := [];
      var info: Option<Clan> := None;
      var i := 0;
      while i < |rows|
        invariant 0 <= i <= |rows|
        invariant entries == Entries(rows[..i], handles, c.value)
        invariant info == if entries == [] then None else k
      {
        var x := rows[i];
        if x.clanId == c.value && x.memberId in handles {
          info := k;
          entries := entries + [EntryOf(x, handles[x.memberId])];
        }
        assert rows[..i + 1][..i] == rows[..i];
        i := i + 1;
      }
      assert rows[..i] == rows;
      r := Roster(info, entries);
    }

    /** list: every clan, each once, ordered by name. */
    function List(): (r: seq<Clan>)
      reads this
      ensures SortedByName(r)
      ensures multiset(r) == multiset(clans)
    {
      SortByName(clans)
    }
  }
}
