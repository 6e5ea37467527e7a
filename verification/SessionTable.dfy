/** The DTLS session table and the listener's steps over it, with the bridge hooked in (internal/dtlsuds/table.go,
    listener.go). */
module SessionTable {
  import opened Wrappers
  import opened Bytes
  import opened Wire
  import opened CstpFrame
  import opened Transports
  import opened RegistrySpec
  import opened Registry

  /** The identity a device resolves to. */
  datatype Identity = Identity(inner: Address6, clat: Option<Address6>)

  /** What becomes of the plaintext of a datagram. */
  datatype Forwarded =
    | Absorbed                           // nothing but a sign of life
    | ToSink(packet: seq<byte>)          // an IP packet for the TUN device
    | Answered(reply: Option<seq<byte>>) // a liveness response, unless the session is gone
    | Left                               // the client has disconnected

  datatype Handled = Existing(session: Session) | AdmittedNew(session: Session) | Unresolved

  /** A session that was never admitted has not been detached either. */
  lemma InTheTable(y: System, s: Session)
    requires Ok(y) && s !in y.admitted
    ensures s !in y.detached
  {
  }

  /** Dropping one session is removing one key. */
  lemma KeptWithout(y: System, k: FourTuple)
    requires Ok(y) && k in y.table
    ensures Kept(y.table, {y.table[k]}) == y.table - {k} && y.table[k] in y.admitted
  {
  }

  lemma TabledAdmitted(y: System, k: FourTuple)
    requires Ok(y) && k in y.table
    ensures y.table[k] in y.admitted
  {
  }

  class Table {
    const bridge: Bridge
    const idleTimeout: int
    var sessions: map<FourTuple, Session>
    ghost var y: System        // what bridge and table amount to
    ghost var log: seq<Event>  // everything that has happened

    /** Bridge, table and sessions are those of the abstract system, which is well-formed. */
    ghost predicate Agrees()
      reads this, bridge, bridge.made, y.admitted
    {
      && bridge.Valid() && Ok(y)
      && y.devices == bridge.Contents() && y.table == sessions
      && (forall k :: k in sessions ==> PlannedAt(k))
      && (forall s :: s in y.admitted ==> Attachment(s))
    }

    /** A session of the table was resolved by its device's identity. */
    ghost predicate PlannedAt(k: FourTuple)
      requires k in sessions
      reads this`sessions
    {
      bridge.Planned(sessions[k].inner, sessions[k].clat)
    }

    ghost predicate Attachment(s: Session)
      reads this`y, s`attached
    {
      s.attached <==> s !in y.detached
    }

    /** The system is the one its history leads to. */
    ghost predicate Logged()
      reads this`y, this`log
    {
      LegalRun(START, log) && y == Run(START, log)
    }

    ghost predicate Valid()
      reads this, bridge, bridge.made, y.admitted
    {
      Agrees() && Logged()
    }

    constructor (bridge: Bridge, idleTimeout: int)
      requires bridge.Valid() && bridge.Contents() == map[]
      ensures Valid() && this.bridge == bridge && this.idleTimeout == idleTimeout && log == []
    {
      this.bridge, this.idleTimeout, sessions, y, log := bridge, idleTimeout, map[], START, [];
    }

    /** One more event takes the system one step. */
    ghost method Record(e: Event)
      requires LegalRun(START, log) && Legal(Run(START, log), e) && y == Step(Run(START, log), e)
      modifies this`log
      ensures Logged() && log == old(log) + [e]
    {
      RunConcat(START, log, [e]);
      assert Run(y, []) == y && LegalRun(y, []);
      assert Run(Run(START, log), [e]) == Step(Run(START, log), e);
      log := log + [e];
    }

    /** A session chosen for egress is in the table, attached, and its device's own. */
    lemma EgressAttached(n: Address6)
      requires Valid() && n in bridge.plan
      ensures Choose(Get(bridge.Contents(), n)).OverDtls? ==>
                var s := Choose(Get(bridge.Contents(), n)).session;
                s.inner == n && s.key in sessions && sessions[s.key] == s && s in y.admitted && s.attached
    {
      EveryRun(log, n);
      if Choose(Get(y.devices, n)).OverDtls? {
        assert Attachment(Choose(Get(y.devices, n)).session);
      }
    }

    /** A packet from the TUN device that is to leave over DTLS leaves: its session has a reply closure. */
    method Deliver(pkt: seq<byte>, freshId: u16) returns (r: Pumped, datagram: Option<seq<byte>>)
      requires Valid()
      ensures forall n :: |pkt| >= 40 && pkt[0] / 16 == 6 && n in bridge.plan && Owns(bridge.plan, n, pkt[24..40]) ==>
                PumpedFor(r, Get(bridge.Contents(), n), pkt[24..40] != n, pkt, freshId)
      ensures r.Written? && r.egress.OverDtls? ==> datagram == Some([PKT_DATA] + r.packet) && |datagram.value| <= 1401
    {
      r := bridge.PumpPacket(pkt, freshId);
      datagram := None;
      if r.Written? {
        if r.egress.OverDtls? {
          Delivers(pkt, freshId, r);
          datagram := r.egress.session.WritePacket(r.packet);
        }
      }
    }

    lemma Delivers(pkt: seq<byte>, freshId: u16, r: Pumped)
      requires Valid() && r.Written? && r.egress.OverDtls?
      requires |pkt| >= 40 && pkt[0] / 16 == 6 && Owned(bridge.plan, pkt[24..40])
      requires forall n :: n in bridge.plan && Owns(bridge.plan, n, pkt[24..40]) ==>
                 PumpedFor(r, Get(bridge.Contents(), n), pkt[24..40] != n, pkt, freshId)
      ensures r.egress.session.attached
    {
      var n :| n in bridge.plan && Owns(bridge.plan, n, pkt[24..40]);
      EgressAttached(n);
    }

    /** A connect, with the table beside it. */
    method Connect(t: Tunnel) returns (ac: ActiveClient, displaced: Tunnel?)
      requires Valid() && bridge.Planned(t.inner, t.clat) && t !in bridge.holder
      modifies this`y, this`log, bridge, bridge.made
      ensures Valid() && y == Step(old(y), Event.Connect(t)) && log == old(log) + [Event.Connect(t)]
      ensures displaced == Get(old(y).devices, t.inner).cstp
      ensures bridge.holder == old(bridge.holder)[t := ac]
    {
      hide Bridge.Valid, Bridge.Contents, Bridge.Planned, Ok, Run, LegalRun;
      StepOk(y, Event.Connect(t));
      ac, displaced := bridge.Connect(t);
      y := Step(y, Event.Connect(t));
      Record(Event.Connect(t));
    }

    method Disconnect(t: Tunnel, ac: ActiveClient)
      requires Valid() && t in bridge.holder && bridge.holder[t] == ac
      modifies this`y, this`log, bridge`clients, ac`cstp
      ensures Valid() && y == Step(old(y), Event.Disconnect(t)) && log == old(log) + [Event.Disconnect(t)]
    {
      hide Bridge.Valid, Bridge.Contents, Bridge.Planned, Ok, Run, LegalRun;
      StepOk(y, Event.Disconnect(t));
      bridge.Disconnect(t, ac);
      y := Step(y, Event.Disconnect(t));
      Record(Event.Disconnect(t));
    }

    /** The first half of an admission: the session enters the table. */
    method Insert(key: FourTuple, s: Session)
      requires Agrees() && key !in sessions && s.key == key && s !in y.admitted && s.attached
      requires bridge.Planned(s.inner, s.clat)
      modifies this`sessions, this`y
      ensures Agrees() && y == Enter(old(y), s)
    {
      hide Bridge.Valid, Bridge.Contents, Bridge.Planned, Ok;
      EnterOk(y, s);
      InTheTable(y, s);
      y := Enter(y, s);
      sessions := sessions[key := s];
      assert forall k :: k in sessions ==> PlannedAt(k) by {
        assert forall k :: k in sessions && k != key ==> old(PlannedAt(k));
      }
      assert forall x :: x in y.admitted && x != s ==> old(Attachment(x));
    }

    /** Both halves, with nothing in between. */
    method AdmitNew(key: FourTuple, id: Identity, now: int) returns (s: Session)
      requires Valid() && key !in sessions && bridge.Planned(id.inner, id.clat)
      modifies this, bridge, bridge.made
      ensures Valid() && y == Step(old(y), Arrive(s)) && log == old(log) + [Arrive(s)]
      ensures fresh(s) && s.key == key && s.lastSeen == now && s.inner == id.inner && s.clat == id.clat
    {
      hide Bridge.Valid, Bridge.Contents, Bridge.Planned, FourTuple.Normalised, Ok, Run, LegalRun;
      s := new Session(key, id.inner, id.clat, now);
      EnterOk(y, s);
      StepOk(y, Arrive(s));
      Insert(key, s);
      Tell(s);
      Record(Arrive(s));
    }

    /** The second half, right after the first. */
    method Tell(s: Session)
      requires Agrees() && Ok(Announce(y, s)) && bridge.Planned(s.inner, s.clat)
      modifies this`y, bridge, bridge.made
      ensures Agrees() && y == Announce(old(y), s)
    {
      hide Bridge.Valid, Bridge.Contents, Bridge.Planned, Ok, Get;
      bridge.OnAdmit(s);
      y := Announce(y, s);
    }

    /** What the listener does with a datagram before its payload is forwarded: it refreshes the session of its
        addresses, or admits a new one if its device resolves. */
    method Handle(tuple: FourTuple, identity: Option<Identity>, now: int) returns (r: Handled)
      requires Valid()
      requires identity.Some? ==> bridge.Planned(identity.value.inner, identity.value.clat)
      modifies this, bridge, bridge.made, sessions.Values
      ensures Valid()
      ensures var key := tuple.Normalised();
              key in old(sessions) ==>
                  r == Existing(old(sessions)[key]) && r.session.lastSeen == now && y == old(y) && log == old(log)
      ensures var key := tuple.Normalised();
              key !in old(sessions) && identity.Some? ==>
                && r.AdmittedNew? && fresh(r.session) && r.session.key == key && r.session.lastSeen == now
                && r.session.inner == identity.value.inner && r.session.clat == identity.value.clat
                && y == Step(old(y), Arrive(r.session)) && log == old(log) + [Arrive(r.session)]
      ensures var key := tuple.Normalised();
              key !in old(sessions) && identity == None ==> r == Unresolved && y == old(y) && log == old(log)
    {
      hide Bridge.Valid, Bridge.Contents, Bridge.Planned, FourTuple.Normalised, Ok, Logged, Step;
      var key := tuple.Normalised();
      if key in sessions {
        var s := sessions[key];
        s.Touch(now);
        return Existing(s);
      }
      if identity == None {
        return Unresolved;
      }
      var s := AdmitNew(key, identity.value, now);
      r := AdmittedNew(s);
    }

    /** The second half, whatever has become of the session by then. */
    method Admit(s: Session)
      requires Agrees() && s in y.admitted && bridge.Planned(s.inner, s.clat)
      modifies this`y, bridge`clients, bridge`made, bridge.made
      ensures bridge.Contents() == Admitted(old(y.devices), s) && y == Announce(old(y), s) && bridge.Valid()
      ensures s.attached <==> s !in y.detached
      ensures sessions == y.table
    {
      hide Bridge.Valid, Bridge.Contents, Bridge.Planned, Ok;
      assert Attachment(s);
      bridge.OnAdmit(s);
      y := Announce(y, s);
    }

    /** Takes a session out of the table: it is detached, and the bridge told. */
    method Evict(k: FourTuple, s: Session)
      requires Agrees() && k in sessions && sessions[k] == s
      modifies this`sessions, this`y, bridge, bridge.made, s`attached
      ensures Agrees() && y == Drop(old(y), {s}) && sessions == old(sessions) - {k}
      ensures bridge.made == old(bridge.made)
    {
      hide Bridge.Valid, Bridge.Contents, Bridge.Planned, Evicted, EvictedOne;
      assert PlannedAt(k);
      bridge.PlannedIn(s.inner, s.clat);
      bridge.ContentsOk();
      EvictedOneIs(y.devices, s);
      DropOk(y, {s});
      KeptWithout(y, k);
      hide Ok, Kept;
      sessions := sessions - {k};
      s.Detach();
      bridge.OnEvict(s);
      y := Drop(y, {s});
      assert forall k' :: k' in sessions ==> old(PlannedAt(k'));
      assert forall x :: x in y.admitted && x != s ==> old(Attachment(x));
    }

    ghost function Sessions(): set<Session>
      reads this
    {
      sessions.Values
    }

    method Remove(k: FourTuple) returns (removed: Option<Session>)
      requires Valid()
      modifies this`sessions, this`y, this`log, bridge, bridge.made, Sessions()`attached
      ensures Valid() && y == Step(old(y), Leave(k)) && log == old(log) + [Leave(k)]
      ensures removed == if k in old(sessions) then Some(old(sessions)[k]) else None
      ensures k in old(sessions) ==> sessions == old(sessions) - {k} && !removed.value.attached
    {
      hide Bridge.Valid, Bridge.Contents, Ok, Run, LegalRun;
      removed := None;
      if k in sessions {
        removed := Some(sessions[k]);
        assert sessions[k] in y.admitted by { TabledAdmitted(y, k); }
        Evict(k, sessions[k]);
        assert Attachment(removed.value);
      }
      Record(Leave(k));
    }

    /** Dispatches a plaintext by its type byte. Only a disconnect changes the table, and it does what Remove does. */
    method ForwardPacket(s: Session, plaintext: seq<byte>) returns (r: Forwarded)
      requires Valid()
      modifies this`sessions, this`y, this`log, bridge, bridge.made, Sessions()`attached
      ensures Valid()
      ensures r == if plaintext == [] then Absorbed
                   else if plaintext[0] == PKT_DATA && |plaintext| > 1 then ToSink(plaintext[1..])
                   else if plaintext[0] == PKT_DPD_OUT then
                       Answered(if old(s.attached) then Some([PKT_DPD_RESP] + plaintext[1..]) else None)
                   else if plaintext[0] == PKT_DISCONNECT then Left
                   else Absorbed
      ensures !r.Left? ==> y == old(y) && log == old(log)
      ensures r.Left? ==> y == Step(old(y), Leave(s.key)) && log == old(log) + [Leave(s.key)]
    {
      hide Bridge.Valid, Bridge.Contents, Agrees, Logged, Step;
      if plaintext == [] {
        return Absorbed;
      }
      var typ, body := plaintext[0], plaintext[1..];
      if typ == PKT_DATA {
        r := if body == [] then Absorbed else ToSink(body);
      } else if typ == PKT_DPD_OUT {
        r := Answered(if s.attached then Some([PKT_DPD_RESP] + body) else None);
      } else if typ == PKT_DISCONNECT {
        var _ := Remove(s.key);
        r := Left;
      } else {
        r := Absorbed;
      }
    }

    ghost function IdleKeys(now: int): (keys: set<FourTuple>)
      reads this, sessions.Values
      ensures keys <= sessions.Keys
      ensures forall k :: k in sessions ==> (k in keys <==> sessions[k].lastSeen < now - idleTimeout)
    {
      set k | k in sessions && sessions[k].lastSeen < now - idleTimeout
    }

    /** Evicts exactly the sessions that have been idle too long. */
    method RunEvictionPass(now: int)
      requires Valid()
      modifies this`sessions, this`y, this`log, bridge, bridge.made, Sessions()`attached
      ensures var gone := At(old(sessions), old(IdleKeys(now)));
              Valid() && y == Step(old(y), Pass(gone)) && log == old(log) + [Pass(gone)]
    {
      hide Bridge.Valid, Bridge.Contents, Ok, Run, LegalRun, Drop, At;
      ghost var gone := At(sessions, IdleKeys(now));
      EndSweep(y, sessions, IdleKeys(now));
      Sweep(sessions, now - idleTimeout, IdleKeys(now));
      Record(Pass(gone));
    }

    method Sweep(start: map<FourTuple, Session>, deadline: int, ghost idle: set<FourTuple>)
      requires Agrees() && start == sessions && idle <= start.Keys
      requires forall k :: k in start ==> (k in idle <==> start[k].lastSeen < deadline)
      modifies this`sessions, this`y, bridge, bridge.made, Sessions()`attached
      ensures Agrees() && y == Drop(old(y), At(start, idle))
    {
      hide Agrees, Ok, Drop, At, Bridge.Valid, Bridge.Contents;
      var keys := start.Keys;
      ghost var y0, gone := y, At(start, idle - keys);
      Unswept(idle);
      while keys != {}
        invariant keys <= start.Keys && gone == At(start, idle - keys)
        invariant Agrees() && y == Drop(y0, gone) && bridge.made == old(bridge.made)
        decreases keys
      {
        var k :| k in keys;
        gone := VisitNext(start, keys, k, start[k], deadline, y0, idle);
        keys := keys - {k};
      }
      assert idle - keys == idle;
    }

    /** Before any key is visited. */
    lemma Unswept(idle: set<FourTuple>)
      requires Agrees() && idle <= sessions.Keys
      ensures Ok(y) && y.table == sessions && y == Drop(y, At(sessions, idle - sessions.Keys))
    {
      DropNone(y);
      assert At(sessions, idle - sessions.Keys) == {};
    }

    /** The table still has a session that was not dropped. */
    lemma StillThere(y0: System, start: map<FourTuple, Session>, gone: set<Session>, k: FourTuple)
      requires Agrees() && y == Drop(y0, gone) && y0.table == start && k in start && start[k] !in gone
      ensures k in sessions && sessions[k] == start[k]
    {
    }

    method VisitNext(start: map<FourTuple, Session>, keys: set<FourTuple>, k: FourTuple, s: Session, deadline: int,
                     ghost y0: System, ghost idle: set<FourTuple>)
      returns (ghost more: set<Session>)
      requires Agrees() && y == Drop(y0, At(start, idle - keys)) && y0.table == start && Ok(y0)
      requires k in keys && keys <= start.Keys && start[k] == s && (k in idle <==> s.lastSeen < deadline)
      modifies this`sessions, this`y, bridge, bridge.made, s`attached
      ensures Agrees() && y == Drop(y0, more) && more == At(start, idle - (keys - {k}))
      ensures bridge.made == old(bridge.made)
    {
      hide *;
      NextSwept(y0, start, keys, k, idle);
      StillThere(y0, start, At(start, idle - keys), k);
      more := Visit(k, s, deadline, y0, At(start, idle - keys));
    }

    method Visit(k: FourTuple, s: Session, deadline: int, ghost y0: System, ghost gone: set<Session>)
        returns (ghost more: set<Session>)
      requires Agrees() && y == Drop(y0, gone) && k in sessions && sessions[k] == s
      modifies this`sessions, this`y, bridge, bridge.made, s`attached
      ensures Agrees() && y == Drop(y0, more) && more == (if s.lastSeen < deadline then gone + {s} else gone)
      ensures bridge.made == old(bridge.made)
    {
      hide *;
      more := gone;
      if s.lastSeen < deadline {
        DropTwice(y0, gone, {s});
        Evict(k, s);
        more := gone + {s};
      }
    }
  }

  /** The sessions under some keys. */
  ghost function At(sessions: map<FourTuple, Session>, keys: set<FourTuple>): set<Session>
  {
    set k | k in sessions && k in keys :: sessions[k]
  }

  lemma NextSwept(y: System, start: map<FourTuple, Session>, keys: set<FourTuple>, k: FourTuple, idle: set<FourTuple>)
    requires Ok(y) && y.table == start && keys <= start.Keys && k in keys
    ensures var gone := At(start, idle - keys);
            && start[k] !in gone
            && At(start, idle - (keys - {k})) == if k in idle then gone + {start[k]} else gone
  {
  }

  lemma EndSweep(y: System, start: map<FourTuple, Session>, idle: set<FourTuple>)
    requires y.table == start
    ensures Legal(y, Pass(At(start, idle)))
    ensures Drop(y, At(start, idle)) == Step(y, Pass(At(start, idle)))
  {
  }

  // An admission is two steps

  /** The table and the bridge learn of a session one after the other, and a removal may come in between. The
      session then serves its device without being in the table, and cannot send, exactly when it was the one
      removed. */
  method AdmitAcrossRemove(l: Table, key: FourTuple, id: Identity, now: int, removed: FourTuple) returns (s: Session)
    requires l.Valid() && key !in l.sessions && l.bridge.Planned(id.inner, id.clat)
    modifies l, l.bridge, l.bridge.made, l.sessions.Values
    ensures Choose(Get(l.bridge.Contents(), id.inner)) == OverDtls(s)
    ensures key in l.sessions && l.sessions[key] == s && s.attached <==> removed != key
  {
    hide Bridge.Valid, Bridge.Contents, Bridge.Planned, Run, LegalRun;
    s := new Session(key, id.inner, id.clat, now);
    l.Insert(key, s);
    hide Table.Agrees;
    if removed in l.sessions {
      l.Evict(removed, l.sessions[removed]);
    }
    l.Admit(s);
  }
}
