/** The sms_buffer table: unique hashes, ids that are never issued twice, rows that go from
    pending to delivered and are deleted only when delivered. */
module Buffer {

  /** A PDU hash stands for the PDU: SHA-256 is taken to be injective. */
  type Hash = string

  type Id = nat

  datatype Status = Pending | Delivered

  datatype Row = Row(hash: Hash, status: Status, createdAt: int)

  /** nextId is the next AUTOINCREMENT value. */
  datatype Table = Table(rows: map<Id, Row>, nextId: Id)

  /** What the cloud is sent about a row. */
  datatype Event = Event(id: Id, hash: Hash)

  const EMPTY := Table(map[], 1)

  ghost predicate HasHash(t: Table, h: Hash) {
    exists id :: id in t.rows && t.rows[id].hash == h
  }

  /** What every statement keeps: ids below the next one, and no hash twice. */
  ghost predicate TableOk(t: Table) {
    && t.nextId > 0
    && (forall id :: id in t.rows ==> 0 < id < t.nextId)
    && (forall a, b :: a in t.rows && b in t.rows && t.rows[a].hash == t.rows[b].hash ==> a == b)
  }

  /** INSERT OR IGNORE under a given id. */
  function InsertAs(t: Table, id: Id, h: Hash, now: int): Table {
    Table(t.rows[id := Row(h, Pending, now)], id + 1)
  }

  /** UPDATE ... SET status = 'DELIVERED' WHERE id = ?; no row, no change. */
  function Mark(t: Table, id: Id): Table {
    if id in t.rows then t.(rows := t.rows[id := t.rows[id].(status := Delivered)]) else t
  }

  /** DELETE ... WHERE status = 'DELIVERED' AND created_at < ?. */
  function Purged(t: Table, cutoff: int): Table {
    t.(rows := map id | id in t.rows && !(t.rows[id].status == Delivered && t.rows[id].createdAt < cutoff) :: t.rows[id])
  }

  predicate IsPending(t: Table, id: Id) {
    id in t.rows && t.rows[id].status == Pending
  }

  function PendingBelow(t: Table, n: nat): seq<Event> {
    if n == 0 then []
    else PendingBelow(t, n - 1) + if IsPending(t, n - 1) then [Event(n - 1, t.rows[n - 1].hash)] else []
  }

  /** SELECT ... WHERE status = 'PENDING' ORDER BY id ASC. */
  function PendingEvents(t: Table): seq<Event> {
    PendingBelow(t, t.nextId)
  }

  ghost predicate StrictlyAscending(es: seq<Event>) {
    forall i, j :: 0 <= i < j < |es| ==> es[i].id < es[j].id
  }

  lemma {:induction false} PendingBelowFacts(t: Table, n: nat)
    ensures StrictlyAscending(PendingBelow(t, n))
    ensures forall i :: 0 <= i < |PendingBelow(t, n)| ==>
              var e := PendingBelow(t, n)[i]; e.id < n && IsPending(t, e.id) && t.rows[e.id].hash == e.hash
  {
    if n > 0 { PendingBelowFacts(t, n - 1); }
  }

  lemma {:induction false} PendingBelowComplete(t: Table, n: nat, id: Id)
    requires id < n && IsPending(t, id)
    ensures Event(id, t.rows[id].hash) in PendingBelow(t, n)
  {
    if id < n - 1 { PendingBelowComplete(t, n - 1, id); }
  }

  /** The flush payload is exactly the pending rows, each once, in ascending order of id. */
  lemma PendingEventsExact(t: Table)
    requires TableOk(t)
    ensures StrictlyAscending(PendingEvents(t))
    ensures forall e :: e in PendingEvents(t) <==> IsPending(t, e.id) && t.rows[e.id].hash == e.hash
  {
    PendingBelowFacts(t, t.nextId);
    forall e: Event | IsPending(t, e.id) && t.rows[e.id].hash == e.hash ensures e in PendingEvents(t) {
      PendingBelowComplete(t, t.nextId, e.id);
    }
  }

  predicate IsDigit(c: char) { '0' <= c <= '9' }

  /** validICCID: nineteen or twenty digits. */
  predicate ValidIccid(iccid: string) {
    19 <= |iccid| <= 20 && forall i :: 0 <= i < |iccid| ==> IsDigit(iccid[i])
  }

  lemma IccidForm(iccid: string)
    ensures ValidIccid(iccid) <==> |iccid| in {19, 20} && !(exists i :: 0 <= i < |iccid| && iccid[i] !in "0123456789")
  {
    forall i | 0 <= i < |iccid| ensures IsDigit(iccid[i]) <==> iccid[i] in "0123456789" { DigitForm(iccid[i]); }
  }

  lemma DigitForm(c: char)
    ensures IsDigit(c) <==> c in "0123456789"
  {
    if IsDigit(c) { assert "0123456789"[c as int - '0' as int] == c; }
  }

  datatype Inserted = Inserted(id: Id) | Duplicate | Failed

  class SmsBuffer {
    var rows: map<Id, Row>
    var nextId: Id

    ghost function View(): Table
      reads this
    {
      Table(rows, nextId)
    }

    ghost predicate Valid()
      reads this
    {
      TableOk(View())
    }

    constructor ()
      ensures Valid() && View() == EMPTY
    {
      rows, nextId := map[], 1;
    }

    /** Insert: a new pending row under a fresh id, or nothing when the hash is known or the statement fails. */
    method Insert(iccid: string, hash: Hash, now: int, dbOk: bool) returns (r: Inserted)
      requires Valid()
      modifies this
      ensures Valid()
      ensures r.Failed? <==> |iccid| !in {19, 20} || (exists i :: 0 <= i < |iccid| && iccid[i] !in "0123456789") || !dbOk
      ensures r.Duplicate? <==> !r.Failed? && old(HasHash(View(), hash))
      ensures r.Inserted? ==> r.id == old(nextId) && View() == InsertAs(old(View()), r.id, hash, now)
      ensures r.Inserted? ==> rows == old(rows)[r.id := Row(hash, Pending, now)]
      ensures !r.Inserted? ==> View() == old(View())
    {
      IccidForm(iccid);
      if !ValidIccid(iccid) {
        return Failed;
      }
      if !dbOk {
        return Failed;
      }
      if exists id :: id in rows && rows[id].hash == hash {
        return Duplicate;
      }
      r := Inserted(nextId);
      rows := rows[nextId := Row(hash, Pending, now)];
      nextId := nextId + 1;
    }

    /** MarkDelivered. */
    method MarkDelivered(id: Id)
      requires Valid()
      modifies this
      ensures Valid() && View() == Mark(old(View()), id)
      ensures rows.Keys == old(rows.Keys) && nextId == old(nextId)
      ensures forall i :: i in rows ==> rows[i] == if i == id then old(rows[i]).(status := Delivered) else old(rows[i])
    {
      if id in rows {
        rows := rows[id := rows[id].(status := Delivered)];
      }
    }

    /** PendingRows: the cursor runs over the index in ascending order of id. */
    method PendingRows() returns (es: seq<Event>)
      ensures es == PendingEvents(View())
    {
      es := [];
      for i := 0 to nextId
        invariant es == PendingBelow(View(), i)
      {
        if i in rows && rows[i].status == Pending {
          es := es + [Event(i, rows[i].hash)];
        }
      }
    }

    /** Purge: drops delivered rows created before the cutoff and says how many. */
    method Purge(cutoff: int) returns (n: nat)
      requires Valid()
      modifies this
      ensures Valid() && View() == Purged(old(View()), cutoff)
      ensures forall i :: i in rows <==> i in old(rows) && (old(rows[i]).status == Pending || old(rows[i]).createdAt >= cutoff)
      ensures (forall i :: i in rows ==> rows[i] == old(rows[i])) && nextId == old(nextId)
      ensures n + |rows| == |old(rows)|
    {
      var kept := map id | id in rows && !(rows[id].status == Delivered && rows[id].createdAt < cutoff) :: rows[id];
      SubmapSize(kept.Keys, rows.Keys);
      n := |rows| - |kept|;
      rows := kept;
    }
  }

  lemma SubmapSize(a: set<Id>, b: set<Id>)
    requires a <= b
    ensures |a| <= |b|
  {
    assert b == a + (b - a);
  }
}
