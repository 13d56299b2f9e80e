/** The imperative side of delivery: the tunnel manager's outbox, ACK map and flush loop, and the worker's
    receive path, written as the calls they are and tied to the steps of module Delivery. */
module Tunnel {
  import opened Buffer
  import opened Delivery
  import opened DeliverySafety

  /** What happens to one row of a flush: before the write, at the write, or while waiting for the ACK. */
  datatype Verdict = CancelledBefore | WriteFails | CloudAcks | SessionDrained | TimesOut | CancelledWaiting

  /** AckDelivered as one call. */
  function AckDone(k: Acks, id: Id): Acks {
    if id in k.pending then Close(Take(k, id)).(acking := NoAck) else k
  }

  /** Taking one entry out and closing its channel: the channel was open, the rest stays apart, and the channels that
      are closed or still in the map are the same together as before. */
  lemma EntryDone(k: Acks, id: Id)
    requires Apart(k) && k.acking.NoAck? && id in k.pending
    ensures k.pending[id] !in k.closed && Apart(AckDone(k, id)) && |AckDone(k, id).pending| <= |k.pending|
    ensures var k' := AckDone(k, id);
            && k' == Acks(k.pending - {id}, k.made, k.closed + multiset{k.pending[id]}, NoAck)
            && k'.closed + multiset(k'.pending.Values) == k.closed + multiset(k.pending.Values)
  {
    assert InMap(k, id, k.pending[id]);
    TakeKeepsApart(k, id);
    CloseKeepsApart(Take(k, id));
    LostKeepsApart(Close(Take(k, id)));
    RemovalKeepsSize(k.pending, id);
    ValuesWithout(k, id);
  }

  lemma ValuesWithout(k: Acks, id: Id)
    requires Apart(k) && id in k.pending
    ensures multiset(k.pending.Values) == multiset((k.pending - {id}).Values) + multiset{k.pending[id]}
  {
    var p := k.pending - {id};
    assert InMap(k, id, k.pending[id]);
    forall other | other in p ensures p[other] != k.pending[id] { assert InMap(k, other, k.pending[other]); }
    forall ch | ch in k.pending.Values ensures ch in p.Values || ch == k.pending[id] {
      var o :| o in k.pending && k.pending[o] == ch;
      if o != id { assert o in p && p[o] == ch; }
    }
    forall ch | ch in p.Values ensures ch in k.pending.Values {
      var o :| o in p && p[o] == ch;
      assert o in k.pending && k.pending[o] == ch;
    }
    assert k.pending.Values == p.Values + {k.pending[id]};
    assert k.pending[id] !in p.Values;
  }

  class Manager {
    const buf: SmsBuffer
    var outbox: seq<Out>
    var pending: map<Id, Chan>
    var made: seq<Id>
    var closed: multiset<Chan>
    var written: seq<Event>

    ghost function View(): Acks
      reads this
    {
      Acks(pending, made, closed, NoAck)
    }

    ghost predicate Valid()
      reads this, buf
    {
      buf.Valid() && |outbox| <= OUTBOX_SIZE && |pending| <= MAX_PENDING_ACKS && Apart(View())
    }

    constructor (b: SmsBuffer)
      requires b.Valid()
      ensures Valid() && buf == b && View() == Acks(map[], [], multiset{}, NoAck) && outbox == [] && written == []
    {
      buf := b;
      outbox, pending, made, closed, written := [], map[], [], multiset{}, [];
    }

    /** Push: a send that never blocks. */
    method Push(o: Out)
      requires Valid()
      modifies this`outbox
      ensures Valid() && outbox == Pushed(old(outbox), o)
      ensures outbox == if |old(outbox)| < 256 then old(outbox) + [o] else old(outbox)
    {
      if |outbox| < OUTBOX_SIZE {
        outbox := outbox + [o];
      }
    }

    /** close(ch): a second close of a channel would panic. */
    method CloseChannel(ch: Chan)
      requires ch !in closed
      modifies this`closed
      ensures closed == old(closed) + multiset{ch}
    {
      closed := closed + multiset{ch};
    }

    /** AckDelivered: takes the entry out, closes its channel and marks the row, whether or not there was an entry. */
    method AckDelivered(bufferId: Id)
      requires Valid()
      modifies this`pending, this`closed, buf
      ensures Valid() && View() == AckDone(old(View()), bufferId)
      ensures buf.View() == Mark(old(buf.View()), bufferId)
    {
      var ok := bufferId in pending;
      if ok {
        var ch := pending[bufferId];
        EntryDone(View(), bufferId);
        pending := pending - {bufferId};
        CloseChannel(ch);
      }
      buf.MarkDelivered(bufferId);
    }

    /** The end of runSession: closes and removes every entry, in whatever order the map yields them. */
    method DrainPending()
      requires Valid()
      modifies this`pending, this`closed
      ensures Valid() && View() == DrainAll(old(View()))
    {
      hide Apart, AckDone;
      ghost var all := closed + multiset(pending.Values);
      ghost var target := DrainAll(View());
      while pending != map[]
        invariant |pending| <= MAX_PENDING_ACKS && Apart(View()) && made == old(made)
        invariant closed + multiset(pending.Values) == all
        decreases pending.Keys
      {
        var id :| id in pending;
        var ch := pending[id];
        ghost var k := View();
        EntryDone(k, id);
        CloseChannel(ch);
        pending := pending - {id};
        assert View() == AckDone(k, id);
      }
      assert View() == target;
    }

    /** The wait of flushBuffer: registers a channel for the row, then is woken, times out or is cancelled. */
    method AwaitAck(id: Id, v: Verdict) returns (cancelled: bool)
      requires Valid() && |pending| < MAX_PENDING_ACKS
      modifies this`pending, this`made, this`closed, buf
      ensures Valid() && cancelled == !(v.CloudAcks? || v.SessionDrained? || v.TimesOut?)
      ensures v.TimesOut? ==> View() == Forget(Register(old(View()), id), id) && buf.View() == old(buf.View())
      ensures v.CloudAcks? ==> View() == AckDone(Register(old(View()), id), id) && buf.View() == Mark(old(buf.View()), id)
      ensures v.SessionDrained? ==> View() == DrainAll(Register(old(View()), id)) && buf.View() == old(buf.View())
      ensures cancelled ==> View() == Register(old(View()), id) && buf.View() == old(buf.View())
    {
      hide Apart, AckDone, DrainAll, Mark;
      RegisterKeepsApart(View(), id);
      MapInsertSize(pending, id, |made|);
      pending := pending[id := |made|];
      made := made + [id];
      cancelled := false;
      if v.CloudAcks? {
        AckDelivered(id);
      } else if v.SessionDrained? {
        DrainPending();
      } else if v.TimesOut? {
        ForgetKeepsApart(View(), id);
        RemovalKeepsSize(pending, id);
        pending := pending - {id};
      } else {
        cancelled := true;
      }
    }

    /** flushBuffer: writes the pending rows one by one, registers a channel for each while the map has room, and
        waits for what `verdict` says about row i. What it writes is a prefix of the rows pending at its start, all of
        them when it ends by itself, also when the map is full from the start. */
    method FlushBuffer(verdict: nat -> Verdict) returns (offered: seq<Event>, ended: bool)
      requires Valid()
      modifies this`pending, this`made, this`closed, this`written, buf
      ensures Valid()
      ensures offered <= PendingEvents(old(buf.View())) && written == old(written) + offered
      ensures ended ==> offered == PendingEvents(old(buf.View()))
      ensures (forall i: nat :: verdict(i).CloudAcks? || verdict(i).SessionDrained? || verdict(i).TimesOut?) ==> ended
    {
      hide Apart, AckDone, DrainAll, Mark, PendingEvents, Register, Forget, TableOk;
      offered := [];
      var rows := buf.PendingRows();
      for i := 0 to |rows|
        invariant Valid()
        invariant offered == rows[..i] && written == old(written) + offered
      {
        if verdict(i).CancelledBefore? {
          return offered, false;
        }
        var row := rows[i];
        if verdict(i).WriteFails? {
          return offered, false;
        }
        written := written + [row];
        offered := offered + [row];
        assert offered == rows[..i + 1];
        if |pending| < MAX_PENDING_ACKS {
          var cancelled := AwaitAck(row.id, verdict(i));
          if cancelled {
            return offered, false;
          }
        }
      }
      ended := true;
    }
  }

  datatype Stored = Decodable(hash: Hash) | Malformed

  /** A modem worker and its SIM card. */
  class Receiver {
    const iccid: string
    const tunnel: Manager
    var sim: map<Slot, Stored>

    constructor (i: string, t: Manager)
      ensures iccid == i && tunnel == t && sim == map[]
    {
      iccid, tunnel, sim := i, t, map[];
    }

    /** receiveSMS. The slot is cleared only after the row is in the table (or was there before), a row that cannot be
        stored leaves the SIM as it is, and a duplicate is not pushed again. Undecodable PDUs are dropped. */
    method ReceiveSms(index: Slot, readOk: bool, now: int, dbOk: bool, deleteOk: bool)
      requires tunnel.Valid()
      modifies this`sim, tunnel`outbox, tunnel.buf
      ensures tunnel.Valid()
      ensures !readOk || index !in old(sim) || (old(sim)[index].Decodable? && (!ValidIccid(iccid) || !dbOk)) ==>
                sim == old(sim) && tunnel.buf.View() == old(tunnel.buf.View()) && tunnel.outbox == old(tunnel.outbox)
      ensures readOk && index in old(sim) && old(sim)[index].Malformed? ==>
                && sim == (if deleteOk then old(sim) - {index} else old(sim))
                && tunnel.buf.View() == old(tunnel.buf.View()) && tunnel.outbox == old(tunnel.outbox)
      ensures readOk && index in old(sim) && old(sim)[index].Decodable? && ValidIccid(iccid) && dbOk ==>
                var h := old(sim)[index].hash;
                var t := old(tunnel.buf.View());
                && sim == (if deleteOk then old(sim) - {index} else old(sim))
                && HasHash(tunnel.buf.View(), h)
                && (if old(HasHash(tunnel.buf.View(), h))
                    then tunnel.buf.View() == t && tunnel.outbox == old(tunnel.outbox)
                    else && tunnel.buf.View() == InsertAs(t, t.nextId, h, now)
                         && tunnel.outbox == Pushed(old(tunnel.outbox), Sms(Event(t.nextId, h))))
    {
      if !readOk || index !in sim {
        return;
      }
      var pdu := sim[index];
      if pdu.Malformed? {
        if deleteOk {
          sim := sim - {index};
        }
        return;
      }
      var r := tunnel.buf.Insert(iccid, pdu.hash, now, dbOk);
      if r.Failed? {
        return;
      }
      assert r.Inserted? ==> tunnel.buf.View().rows[r.id].hash == pdu.hash;
      if deleteOk {
        sim := sim - {index};
      }
      if r.Duplicate? {
        return;
      }
      tunnel.Push(Sms(Event(r.id, pdu.hash)));
    }
  }
}
