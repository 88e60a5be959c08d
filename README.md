# Clan membership, modelled in Dafny

This project models the clan handlers of the netwrok server (`netwrok/clan.py`):
creating a clan, joining and leaving one, promoting and demoting admins,
approving pending members, a per-clan key/value object store, and the two
read-only views (`members`, `list`).

Every handler in the source sends SQL to PostgreSQL. Here the three tables it
touches (`clan`, `clan_member`, `clan_object`) are sequences of rows held by a
`Store` object, and each handler is one atomic step on them:

- `clan_model.dfy` (module `ClanModel`): the row types, the authorisation
  predicates ("caller holds an admin row in clan c", "caller holds any row in
  clan c") and the membership invariant: no `Pending` or `Banned` row has the
  admin flag set.
- `membership.dfy` (module `MembershipRules`): what the `UPDATE`, `INSERT` and
  `DELETE` statements of `setadmin`, `setmembertype`, `join` and `leave` do to
  the membership table. Each is a function from the table before the statement
  to the table after it. The authorisation test sits in the statement's own
  `WHERE` clause, so these functions evaluate it on the table as it was before
  the statement.
- `objects.dfy` (module `ClanObjects`): `set_object` and `get_object`.
- `queries.dfy` (module `ClanQueries`): the roster `members` builds and the
  name order `list` returns.
- `store.dfy` (module `ClanStore`): class `Store`, with one method per handler.
  `Store.Valid()` is the invariant every mutating method keeps.

A handler that wraps its statements in `try`/`except` (`create`, `join`,
`setadmin`, `setmembertype`) takes a `rejected` flag. It stands for "the
database raised", for example on a schema constraint that is not visible
here. When it is set, the handler returns false and the tables are unchanged.
Success of `setadmin` and `setmembertype` means "the update returned at least
one row".

## Model

| member | source | states |
|---|---|---|
| `ClanStore.Store.Create` | netwrok/clan.py:76-100 | on success adds exactly one clan with an id no existing clan has, plus exactly one `(id, caller, Founder, admin)` row, and returns true; on failure returns false with clans and memberships unchanged; objects never change; the invariant is kept |
| `ClanStore.Store.Join` | netwrok/clan.py:115-130 | on success appends exactly one `(clan, caller, Pending, not admin)` row and returns true; on failure returns false and the table is unchanged |
| `ClanStore.Store.Leave` | netwrok/clan.py:103-112 | the table becomes the table without the caller's rows; always returns true; nothing else changes |
| `ClanStore.Store.SetAdmin` | netwrok/clan.py:133-155 | returns true exactly when no error occurs and some row of the target qualifies; a false result leaves the table unchanged; the invariant is kept |
| `ClanStore.Store.SetMemberType` | netwrok/clan.py:158-180 | returns true exactly when no error occurs and the target has a Pending row in a clan the caller administers; a false result leaves the table unchanged; the invariant is kept |
| `ClanStore.Store.SetObject` | netwrok/clan.py:9-31 | the object table becomes `StoredObjects` of the old tables; memberships and clans are unchanged |
| `ClanStore.Store.GetObject` | netwrok/clan.py:34-50 | absent exactly when no object with the key lies in a clan where the reader has a row; otherwise the value of such an object |
| `ClanStore.Store.Members` | netwrok/clan.py:53-73 | the loop over the joined rows yields the caller's clan (only if some entry was found) and one entry per row of that clan whose member has a handle, in table order |
| `ClanStore.Store.List` | netwrok/clan.py:183-193 | the result holds every clan exactly once (same multiset) and is ordered by name |
| `MembershipRules.WithAdminFlag` | netwrok/clan.py:143-148 | setadmin's update keeps the row count, changes only the admin column, changes only the target's rows that are not Pending or Banned and lie in a clan where the caller has an admin row, and gives every such row the requested flag |
| `MembershipRules.SetAdminRefusedIsNoop` | netwrok/clan.py:143-152 | when no row qualifies (setadmin returns false) the table is exactly as before |
| `MembershipRules.SetAdminKeepsNoWaitingAdmin` | netwrok/clan.py:144-146 | setadmin never makes a Pending or Banned row an admin row |
| `MembershipRules.WithKind` | netwrok/clan.py:168-173 | setmembertype's update keeps the row count, changes only the type column (admin flags untouched), changes only the target's Pending rows in clans the caller administers, and gives every such row the requested type |
| `MembershipRules.SetMemberTypeNeedsPending` | netwrok/clan.py:168-177 | a target with no Pending row yields false and an unchanged table |
| `MembershipRules.SetMemberTypeKeepsNoWaitingAdmin` | netwrok/clan.py:168-171 | whatever type it writes, setmembertype keeps every Pending or Banned row non-admin |
| `MembershipRules.AdminFlagMovesOnlyInCallersClans` | netwrok/clan.py:143-173 | an admin flag changes only on a target row in a clan where the caller already has an admin row, and setmembertype never changes one |
| `MembershipRules.OutsiderChangesNothing` | netwrok/clan.py:143-173 | a caller with no admin row in clan c changes no row of c with either update, and against a target whose rows all lie in c both updates report failure |
| `MembershipRules.Joined` | netwrok/clan.py:122-127 | join's insert keeps every old row in place and adds one Pending, non-admin row for the caller in the given clan; it keeps the invariant |
| `MembershipRules.JoinThenApprove` | netwrok/clan.py:122-177 | after join, setmembertype by an admin of that clan succeeds and turns exactly the new row into the requested type, still non-admin |
| `MembershipRules.WithoutMember` | netwrok/clan.py:109-111 | leave's delete leaves no row of the member and keeps every other row with its multiplicity |
| `MembershipRules.WithoutAbsentMember` | netwrok/clan.py:109-111 | deleting the rows of a member who has none leaves the table unchanged |
| `MembershipRules.LeaveIdempotent` | netwrok/clan.py:103-112 | leaving twice gives the same table as leaving once |
| `MembershipRules.LeaveKeepsNoWaitingAdmin` | netwrok/clan.py:109-111 | leave keeps the invariant |
| `ClanObjects.Overwritten` | netwrok/clan.py:19-24 | set_object's update keeps the object count, touches only objects with the key in clans where the caller has an admin row, and changes only their value |
| `ClanObjects.AdminCopies` | netwrok/clan.py:27-31 | the intended insert yields exactly the objects `(c, caller, key, value)` for the clans c where the caller has an admin row |
| `ClanObjects.StoredObjects` | netwrok/clan.py:17-31 | set_object keeps non-writable objects in place, writes the value into writable ones, inserts only when the update found nothing, inserts one object per clan the caller administers, and leaves a writable object with the value whenever the caller administers any clan |
| `ClanObjects.StoredObjectsAsWritten` | netwrok/clan.py:25-31 | as written, a set_object whose update finds nothing leaves the object table unchanged |
| `ClanObjects.Lookup` | netwrok/clan.py:42-50 | get_object is absent exactly when no object with the key lies in a clan where the reader has any row; otherwise it is the value of such an object |
| `ClanObjects.SetThenGet` | netwrok/clan.py:9-50 | after an admin of clan c stores a value under a key, a member of c reads back exactly that value, whether the key was new or not |
| `ClanObjects.AsWrittenLosesFirstWrite` | netwrok/clan.py:26-31 | as written, a clan admin's first write of a key is lost, while the intended insert makes it readable |
| `ClanObjects.NothingReadableAfterLeave` | netwrok/clan.py:42-46 | after leave, get_object by that member is absent for every key |
| `ClanQueries.ClanOfMember` | netwrok/clan.py:64 | the subquery yields nothing exactly when the member has no row, and otherwise a clan the member has a row in |
| `ClanQueries.FindClan` | netwrok/clan.py:61-64 | finds a clan with the given id exactly when one exists |
| `ClanQueries.Entries` | netwrok/clan.py:59-65 | the roster entries are exactly those of rows of the clan whose member has a handle |
| `ClanQueries.RosterShowsOwnClan` | netwrok/clan.py:53-73 | a member of an existing clan gets that clan and finds their own entry in the roster |
| `ClanQueries.RosterOnlyFromCallersClan` | netwrok/clan.py:53-73 | every roster entry belongs to a member of the caller's own clan |
| `ClanQueries.RosterEmptyAfterLeave` | netwrok/clan.py:53-73 | after leave, members reports no clan and an empty roster |
| `ClanQueries.NameLeTotal` | netwrok/clan.py:191 | any two names are ordered one way or the other |
| `ClanQueries.InsertByName` | netwrok/clan.py:189-192 | inserting into a name-ordered list keeps it ordered and adds exactly that clan |
| `ClanQueries.SortByName` | netwrok/clan.py:189-193 | the result is ordered by name and is a permutation of the clan table |

## Left out

- Coroutines, the connection pool, cursors and `begin`/`commit`/`rollback` are not modelled. Each handler is one atomic step, so concurrent races between handlers are not modelled either.
- `client.require_auth()` is not modelled: the caller's member id is a parameter and is taken to be authenticated. `client.session["member_id"]` and `client.member_id` are taken to be the same id.
- Serialisation of object values is not modelled: a value is an opaque payload string. The module never imports `json`, so `json.dumps` (line 16) and `json.loads` (line 49) would raise; that error is not modelled.
- The schema is not part of this model. Its uniqueness and foreign-key rules are the unknown errors behind the `rejected` flag of `create`, `join`, `setadmin` and `setmembertype`. The handlers without `try` (`leave`, `set_object`, `get_object`, `members`, `list`) let errors escape; those errors are not modelled.
- `join` has no check of its own that the caller is not already in a clan; a duplicate join fails only through the abstract `rejected` flag.
- The membership type is any string, as in the code, not a closed enumeration; `setmembertype` may write any type, including `Pending` or `Banned`.
- set_object's update keeps the object's `member_id` (the code sets only `value`), so the owner is not the admin who last wrote it.
- get_object checks no membership type: a Pending or Banned member can read. `fetchone` is modelled as the first match in table order.
- The serial counters stay unchanged on a rolled-back `create` or `join`; PostgreSQL sequences would advance. Ids stay fresh either way.
- `list` orders names by character code; database collation is not modelled. The order among equal names is unspecified in the source; the model fixes one.
- ClanStore.Store.Members: requires that the caller has at most one membership row. With more, the scalar subquery at line 64 makes PostgreSQL raise, and that error is not modelled. The order of roster entries is the table order.
- ClanObjects.SetThenGet: holds only when the writer administers one clan and the reader belongs to one clan. When the writer administers two clans and the key already exists in only one of them, the update succeeds there and no insert happens for the other, so a reader in the other clan reads nothing.
- `src/netwrok/cmd.py` (the provisioning command) is not part of this model: it only does I/O.

## Findings

| source | as written | input that shows it | evidently intended | confidence | as-written member | corrected member |
|---|---|---|---|---|---|---|
| netwrok/clan.py:27-31 | the insert path writes to table `object`, not `clan_object`, and binds three values to four placeholders, so it raises and stores nothing | a clan admin with no object under key `rank` calls `set_object("rank", "gold")`; `get_object("rank")` then returns nothing | add one `clan_object` row `(clan, caller, key, value)` for each clan the caller administers | high, not executed | `ClanObjects.AsWrittenLosesFirstWrite` | `ClanObjects.StoredObjects` |
