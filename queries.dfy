/**
 * The read-only views: the roster `members` returns for the caller's clan,
 * and the clan list `list` returns ordered by name.
 */
module ClanQueries {
  import opened ClanModel
  import opened MembershipRules

  // ------------------------------------------------------------- members

  /** One entry of the roster: `(member_id, handle, type, admin)`. */
  datatype MemberEntry = MemberEntry(memberId: MemberId, handle: string, kind: string, admin: bool)

  /** What `members` returns: the clan's id, name and type (present only when some row was found)
      and the entries of the clan's members. */
  datatype Roster = Roster(clan: Option<Clan>, members: seq<MemberEntry>)

  /** A member has at most one membership row; otherwise the scalar subquery of `members` fails. */
  predicate AtMostOneRow(rows: seq<Membership>, m: MemberId)
  {
    forall i, j :: 0 <= i < j < |rows| && rows[i].memberId == m ==> rows[j].memberId != m
  }

  /** The scalar subquery `select clan_id from clan_member where member_id = m`. */
  function ClanOfMember(rows: seq<Membership>, m: MemberId): (r: Option<ClanId>)
    ensures r.None? <==> forall x :: x in rows ==> x.memberId != m
    ensures r.Some? ==> HasRowIn(rows, m, r.value)
  {
    if rows == [] then None
    else
      assert rows == [rows[0]] + rows[1..];
      if rows[0].memberId == m then Some(rows[0].clanId) else ClanOfMember(rows[1..], m)
  }

  /** The clan row with the given id, if any. */
  function FindClan(clans: seq<Clan>, id: ClanId): (r: Option<Clan>)
    ensures r.None? <==> forall k :: k in clans ==> k.id != id
    ensures r.Some? ==> r.value in clans && r.value.id == id
  {
    if clans == [] then None
    else
      assert clans == [clans[0]] + clans[1..];
      if clans[0].id == id then Some(clans[0]) else FindClan(clans[1..], id)
  }

  /** The roster entry a membership row yields, given the member's handle. */
  function EntryOf(x: Membership, handle: string): MemberEntry
  {
    MemberEntry(x.memberId, handle, x.kind, x.admin)
  }

  /** The entries of clan `c`, in table order: one per row of `c` whose member has a handle
      (the inner join with the `member` table drops the others). */
  function Entries(rows: seq<Membership>, handles: map<MemberId, string>, c: ClanId): (r: seq<MemberEntry>)
    ensures |r| <= |rows|
    ensures forall e :: e in r <==>
              exists x :: x in rows && x.clanId == c && x.memberId in handles && e == EntryOf(x, handles[x.memberId])
  {
    if rows == [] then []
    else
      var last := rows[|rows| - 1];
      assert rows == rows[..|rows| - 1] + [last];
      Entries(rows[..|rows| - 1], handles, c)
      + (if last.clanId == c && last.memberId in handles then [EntryOf(last, handles[last.memberId])] else [])
  }

  /** What `members` returns for caller `m`. */
  function RosterOf(clans: seq<Clan>, rows: seq<Membership>, handles: map<MemberId, string>, m: MemberId): Roster
  {
    match ClanOfMember(rows, m)
    case None => Roster(None, [])
    case Some(c) =>
      match FindClan(clans, c)
      case None => Roster(None, [])
      case Some(k) =>
        var es := Entries(rows, handles, c);
        Roster(if es == [] then None else Some(k), es)
  }

  /** A member of an existing clan sees that clan, and sees themselves in its roster. */
  lemma RosterShowsOwnClan(clans: seq<Clan>, rows: seq<Membership>, handles: map<MemberId, string>, x: Membership)
    requires x in rows && AtMostOneRow(rows, x.memberId)
    requires x.memberId in handles
    requires exists k :: k in clans && k.id == x.clanId
    ensures RosterOf(clans, rows, handles, x.memberId).clan == FindClan(clans, x.clanId)
    ensures EntryOf(x, handles[x.memberId]) in RosterOf(clans, rows, handles, x.memberId).members
  {
    var i :| 0 <= i < |rows| && rows[i] == x;
    var c := ClanOfMember(rows, x.memberId);
    var y :| y in rows && y.memberId == x.memberId && y.clanId == c.value;
    var j :| 0 <= j < |rows| && rows[j] == y;
    assert i == j;
    assert EntryOf(x, handles[x.memberId]) in Entries(rows, handles, x.clanId);
  }

  /** Every roster entry comes from a row of the caller's clan: `members` never shows anyone from
      another clan. */
  lemma RosterOnlyFromCallersClan(clans: seq<Clan>, rows: seq<Membership>, handles: map<MemberId, string>, m: MemberId)
    ensures forall e :: e in RosterOf(clans, rows, handles, m).members ==>
              exists x, y :: x in rows && y in rows && y.memberId == m && x.clanId == y.clanId && e.memberId == x.memberId
  {
  }

  /** After `leave`, `members` reports no clan and nobody. */
  lemma RosterEmptyAfterLeave(clans: seq<Clan>, rows: seq<Membership>, handles: map<MemberId, string>, m: MemberId)
    ensures RosterOf(clans, WithoutMember(rows, m), handles, m) == Roster(None, [])
  {
  }

  // ---------------------------------------------------------------- list

  /** Names compared character by character, a proper prefix first. */
  predicate NameLe(a: string, b: string)
  {
    |a| == 0 || (|b| > 0 && (a[0] < b[0] || (a[0] == b[0] && NameLe(a[1..], b[1..]))))
  }

  lemma {:induction false} NameLeTotal(a: string, b: string)
    ensures NameLe(a, b) || NameLe(b, a)
  {
    if |a| > 0 && |b| > 0 && a[0] == b[0] {
      NameLeTotal(a[1..], b[1..]);
    }
  }

  predicate SortedByName(s: seq<Clan>)
  {
    forall i :: 0 < i < |s| ==> NameLe(s[i - 1].name, s[i].name)
  }

  /** Insert one clan into a list already ordered by name. */
  function InsertByName(k: Clan, s: seq<Clan>): (r: seq<Clan>)
    requires SortedByName(s)
    ensures SortedByName(r)
    ensures multiset(r) == multiset(s) + multiset{k}
    ensures |r| > 0 && (r[0] == k || (|s| > 0 && r[0] == s[0]))
  {
    if s == [] then [k]
    else if NameLe(k.name, s[0].name) then [k] + s
    else
      NameLeTotal(k.name, s[0].name);
      assert s == [s[0]] + s[1..];
      [s[0]] + InsertByName(k, s[1..])
  }

  /** `select id, name, type from clan order by name`: every clan, each once, ordered by name. */
  function SortByName(clans: seq<Clan>): (r: seq<Clan>)
    ensures SortedByName(r)
    ensures multiset(r) == multiset(clans)
  {
    if clans == [] then []
    else
      assert clans == [clans[0]] + clans[1..];
      InsertByName(clans[0], SortByName(clans[1..]))
  }
}
