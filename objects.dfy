/**
 * The clan object store: `set_object` and `get_object` on the
 * `clan_object` table, with the membership table as the source of
 * authorisation (write needs an admin row in the object's clan, read needs
 * any row in it).
 */
module ClanObjects {
  import opened ClanModel
  import opened MembershipRules

  /** `o` is selected by set_object's update: it has the key and the writer is admin of its clan. */
  predicate Writable(rows: seq<Membership>, writer: MemberId, key: string, o: ClanObject)
  {
    o.key == key && IsAdminOf(rows, writer, o.clanId)
  }

  /** `o` is matched by get_object's join: it has the key and the reader has a row in its clan. */
  predicate Readable(rows: seq<Membership>, reader: MemberId, key: string, o: ClanObject)
  {
    o.key == key && HasRowIn(rows, reader, o.clanId)
  }

  /** set_object's update returned a row, so its insert is skipped. */
  predicate UpdateHits(objects: seq<ClanObject>, rows: seq<Membership>, writer: MemberId, key: string)
  {
    exists o :: o in objects && Writable(rows, writer, key, o)
  }

  /** The table after set_object's update: the value of every writable object is replaced;
      the owning member is left as it was. */
  function Overwritten(objects: seq<ClanObject>, rows: seq<Membership>, writer: MemberId, key: string, value: Payload): (r: seq<ClanObject>)
    ensures |r| == |objects|
    ensures forall i :: 0 <= i < |objects| && !Writable(rows, writer, key, objects[i]) ==> r[i] == objects[i]
    ensures forall i :: 0 <= i < |objects| && Writable(rows, writer, key, objects[i]) ==> r[i] == objects[i].(value := value)
  {
    seq(|objects|, i requires 0 <= i < |objects| =>
      if Writable(rows, writer, key, objects[i]) then objects[i].(value := value) else objects[i])
  }

  /** The rows set_object's insert is meant to add: one `(clan, writer, key, value)` per admin row
      of the writer. */
  function AdminCopies(rows: seq<Membership>, writer: MemberId, key: string, value: Payload): (r: seq<ClanObject>)
    ensures forall o :: o in r <==> o.memberId == writer && o.key == key && o.value == value && IsAdminOf(rows, writer, o.clanId)
  {
    if rows == [] then []
    else
      assert rows == [rows[0]] + rows[1..];
      (if rows[0].admin && rows[0].memberId == writer then [ClanObject(rows[0].clanId, writer, key, value)] else [])
      + AdminCopies(rows[1..], writer, key, value)
  }

  /** The table after set_object, with the insert path as intended: update the writable objects, and
      only when there are none, add one object per clan the writer administers. */
  function StoredObjects(objects: seq<ClanObject>, rows: seq<Membership>, writer: MemberId, key: string, value: Payload): (r: seq<ClanObject>)
    ensures |r| >= |objects|
    // objects the writer may not write are kept, in place
    ensures forall i :: 0 <= i < |objects| && !Writable(rows, writer, key, objects[i]) ==> r[i] == objects[i]
    // objects the writer may write get the new value and nothing else
    ensures forall i :: 0 <= i < |objects| && Writable(rows, writer, key, objects[i]) ==> r[i] == objects[i].(value := value)
    // an insert happens only when the update found nothing ...
    ensures UpdateHits(objects, rows, writer, key) ==> |r| == |objects|
    // ... and adds only writable objects holding the value, owned by the writer ...
    ensures forall i :: |objects| <= i < |r| ==> Writable(rows, writer, key, r[i]) && r[i].value == value && r[i].memberId == writer
    // ... one for each clan the writer administers
    ensures !UpdateHits(objects, rows, writer, key) ==>
              forall c :: IsAdminOf(rows, writer, c) ==> ClanObject(c, writer, key, value) in r
    // so a writer who administers any clan leaves a writable object holding the value
    ensures (exists x :: x in rows && x.memberId == writer && x.admin) ==>
              exists o :: o in r && Writable(rows, writer, key, o) && o.value == value
  {
    if UpdateHits(objects, rows, writer, key) then Overwritten(objects, rows, writer, key, value)
    else
      var added := AdminCopies(rows, writer, key, value);
      var r := objects + added;
      assert forall i :: |objects| <= i < |r| ==> r[i] in added;
      assert forall x :: x in rows && x.memberId == writer && x.admin ==>
               IsAdminOf(rows, writer, x.clanId) && ClanObject(x.clanId, writer, key, value) in r;
      r
  }

  /** set_object exactly as written: the insert path names the wrong table and binds three values to
      four placeholders, so it raises and stores nothing; only the update path has an effect. */
  function StoredObjectsAsWritten(objects: seq<ClanObject>, rows: seq<Membership>, writer: MemberId, key: string, value: Payload): (r: seq<ClanObject>)
    ensures |r| == |objects|
    ensures !UpdateHits(objects, rows, writer, key) ==> r == objects
  {
    if UpdateHits(objects, rows, writer, key) then Overwritten(objects, rows, writer, key, value) else objects
  }

  /** get_object: the value of the first object (in table order) with the key in a clan where the
      reader holds any row, or nothing. */
  function Lookup(objects: seq<ClanObject>, rows: seq<Membership>, reader: MemberId, key: string): (r: Option<Payload>)
    ensures r.None? <==> forall o :: o in objects ==> !Readable(rows, reader, key, o)
    ensures r.Some? ==> exists o :: o in objects && Readable(rows, reader, key, o) && o.value == r.value
  {
    if objects == [] then None
    else
      assert objects == [objects[0]] + objects[1..];
      if Readable(rows, reader, key, objects[0]) then Some(objects[0].value)
      else Lookup(objects[1..], rows, reader, key)
  }

  /** Round trip: after an admin of clan `c` (and of no other clan) stores `value` under `key`, every
      member of `c` (and of no other clan) reads back exactly `value`, whether the key was new or not. */
  lemma SetThenGet(objects: seq<ClanObject>, rows: seq<Membership>, writer: MemberId, reader: MemberId,
                   c: ClanId, key: string, value: Payload)
    requires IsAdminOf(rows, writer, c)
    requires forall x :: x in rows && x.memberId == writer && x.admin ==> x.clanId == c
    requires HasRowIn(rows, reader, c)
    requires forall x :: x in rows && x.memberId == reader ==> x.clanId == c
    ensures Lookup(StoredObjects(objects, rows, writer, key, value), rows, reader, key) == Some(value)
  {
  }

  /** As written, the first set_object of a new key by a clan admin is lost: reading it back finds
      nothing, where the intended store yields the value. */
  lemma AsWrittenLosesFirstWrite()
    ensures var rows := [Membership(1, 7, 42, Founder, true)];
            Lookup(StoredObjectsAsWritten([], rows, 42, "rank", "gold"), rows, 42, "rank") == None &&
            Lookup(StoredObjects([], rows, 42, "rank", "gold"), rows, 42, "rank") == Some("gold")
  {
  }

  /** After `leave`, the member reads nothing from the object store. */
  lemma NothingReadableAfterLeave(objects: seq<ClanObject>, rows: seq<Membership>, m: MemberId, key: string)
    ensures Lookup(objects, WithoutMember(rows, m), m, key) == None
  {
  }
}
