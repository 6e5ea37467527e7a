/** The two transports a client may have (internal/cstp/tunnel.go, internal/dtlsuds/session.go). */
module Transports {
  import opened Wrappers
  import opened Bytes
  import opened Wire
  import opened ProxyUdp
  import opened CstpFrame

  class Tunnel {
    const inner: Address6
    const clat: Option<Address6>

    constructor (inner: Address6, clat: Option<Address6>)
      ensures this.inner == inner && this.clat == clat
    {
      this.inner, this.clat := inner, clat;
    }
  }

  /** The addresses a DTLS session is keyed by. */
  datatype FourTuple = FourTuple(src: AddrPort, dst: AddrPort) {
    function Normalised(): FourTuple
    {
      FourTuple(AddrPort(Unmap(src.addr), src.port), AddrPort(Unmap(dst.addr), dst.port))
    }
  }

  class Session {
    const key: FourTuple
    const inner: Address6
    const clat: Option<Address6>
    var lastSeen: int
    var attached: bool // the reply closure is installed

    constructor (key: FourTuple, inner: Address6, clat: Option<Address6>, now: int)
      ensures this.key == key && this.inner == inner && this.clat == clat && lastSeen == now && attached
    {
      this.key, this.inner, this.clat, lastSeen, attached := key, inner, clat, now, true;
    }

    method Touch(now: int)
      modifies this`lastSeen
      ensures lastSeen == now
    {
      lastSeen := now;
    }

    method Detach()
      modifies this`attached
      ensures !attached
    {
      attached := false;
    }

    /** The payload of the reply datagram for an IP packet; a detached session sends nothing. */
    method WritePacket(p: seq<byte>) returns (framed: Option<seq<byte>>)
      ensures framed == if attached then Some([PKT_DATA] + p) else None
    {
      framed := if attached then Some([PKT_DATA] + p) else None;
    }
  }
}

/** What the client registry and the session table mean: for each device, its transports (cmd/era-ocserv/bridge.go,
    internal/dtlsuds/table.go, listener.go), and what every run of their steps keeps. */
module RegistrySpec {
  import opened Wire
  import opened Transports

  /** The transports of a device; DTLS is preferred for egress. */
  datatype Device = Device(cstp: Tunnel?, dtls: Session?)

  type Devices = map<Address6, Device>

  const NOBODY := Device(null, null)

  datatype Egress = OverDtls(session: Session) | OverCstp(tunnel: Tunnel) | Nowhere

  function Choose(d: Device): Egress
  {
    if d.dtls != null then OverDtls(d.dtls) else if d.cstp != null then OverCstp(d.cstp) else Nowhere
  }

  function Get(ds: Devices, n: Address6): Device
  {
    if n in ds then ds[n] else NOBODY
  }

  /** A device without transports is not kept. */
  function Put(ds: Devices, n: Address6, d: Device): Devices
  {
    if d == NOBODY then ds - {n} else ds[n := d]
  }

  // Steps on the registry

  /** A fresh tunnel takes over its device: a tunnel and a session it had before are superseded. */
  function Connected(ds: Devices, t: Tunnel): Devices
  {
    ds[t.inner := Device(t, null)]
  }

  function Disconnected(ds: Devices, t: Tunnel): Devices
  {
    if Get(ds, t.inner).cstp == t then Put(ds, t.inner, Device(null, Get(ds, t.inner).dtls)) else ds
  }

  function Admitted(ds: Devices, s: Session): Devices
  {
    ds[s.inner := Device(Get(ds, s.inner).cstp, s)]
  }

  function Cleared(d: Device, gone: set<Session>): Device
  {
    if d.dtls != null && d.dtls in gone then Device(d.cstp, null) else d
  }

  function Evicted(ds: Devices, gone: set<Session>): Devices
  {
    map n | n in ds && Cleared(ds[n], gone) != NOBODY :: Cleared(ds[n], gone)
  }

  /** One session's device without it. */
  function EvictedOne(ds: Devices, s: Session): Devices
  {
    if s.inner in ds then Put(ds, s.inner, Cleared(ds[s.inner], {s})) else ds
  }

  /** Where sessions serve their own devices, that is what evicting it means. */
  lemma EvictedOneIs(ds: Devices, s: Session)
    requires forall n :: n in ds ==> ds[n] != NOBODY && (ds[n].dtls != null ==> ds[n].dtls.inner == n)
    ensures EvictedOne(ds, s) == Evicted(ds, {s})
  {
  }

  // Runs

  datatype Event =
    | Connect(tunnel: Tunnel)
    | Disconnect(tunnel: Tunnel)
    | Arrive(session: Session)   // a datagram, and the session it would start
    | Leave(key: FourTuple)      // a disconnect received from the client
    | Pass(gone: set<Session>)   // an eviction pass

  /** The registry, the session table, and their history: every session ever admitted, those that have left egress,
      and those whose reply closure is gone. */
  datatype System = System(devices: Devices, table: map<FourTuple, Session>,
                           admitted: set<Session>, retired: set<Session>, detached: set<Session>)

  const START := System(map[], map[], {}, {}, {})

  function Dtls(d: Device): set<Session>
  {
    if d.dtls == null then {} else {d.dtls}
  }

  function Step(y: System, e: Event): System
  {
    match e
    case Connect(t) => y.(devices := Connected(y.devices, t), retired := y.retired + Dtls(Get(y.devices, t.inner)))
    case Disconnect(t) => y.(devices := Disconnected(y.devices, t))
    case Arrive(s) => if s.key in y.table then y else Announce(Enter(y, s), s)
    case Leave(key) => if key in y.table then Drop(y, {y.table[key]}) else y
    case Pass(gone) => Drop(y, gone)
  }

  /** The first half of an arrival: the session enters the table. */
  function Enter(y: System, s: Session): System
  {
    y.(table := y.table[s.key := s], admitted := y.admitted + {s})
  }

  /** The second half: the bridge is told. */
  function Announce(y: System, s: Session): System
  {
    y.(devices := Admitted(y.devices, s), retired := y.retired + Dtls(Get(y.devices, s.inner)))
  }

  function Drop(y: System, gone: set<Session>): System
  {
    y.(devices := Evicted(y.devices, gone), table := Kept(y.table, gone),
       retired := y.retired + gone, detached := y.detached + gone)
  }

  function Kept(table: map<FourTuple, Session>, gone: set<Session>): map<FourTuple, Session>
  {
    map k | k in table && table[k] !in gone :: table[k]
  }

  /** New sessions are new; a pass evicts sessions of the table. */
  predicate Legal(y: System, e: Event) {
    match e
    case Arrive(s) => s.key in y.table || s !in y.admitted
    case Pass(gone) => gone <= y.table.Values
    case _ => true
  }

  predicate LegalRun(y: System, es: seq<Event>)
    decreases |es|
  {
    es != [] ==> Legal(y, es[0]) && LegalRun(Step(y, es[0]), es[1..])
  }

  function Run(y: System, es: seq<Event>): System
    decreases |es|
  {
    if es == [] then y else Run(Step(y, es[0]), es[1..])
  }

  // The invariant

  /** A device that is registered has a transport, its own; its session is in the table and has not been retired. */
  predicate DeviceOk(y: System, n: Address6, d: Device) {
    && d != NOBODY
    && (d.cstp != null ==> d.cstp.inner == n)
    && (d.dtls != null ==> d.dtls.inner == n && InTable(y, d.dtls) && d.dtls !in y.retired)
  }

  predicate InTable(y: System, s: Session) {
    s.key in y.table && y.table[s.key] == s
  }

  predicate Ok(y: System) {
    && (forall n :: n in y.devices ==> DeviceOk(y, n, y.devices[n]))
    && (forall k :: k in y.table ==> y.table[k].key == k && y.table[k] in y.admitted && y.table[k] !in y.detached)
    && y.detached <= y.retired <= y.admitted
  }

  lemma StepOk(y: System, e: Event)
    requires Ok(y) && Legal(y, e)
    ensures Ok(Step(y, e)) && y.retired <= Step(y, e).retired
  {
    match e
    case Connect(t) =>
      OneSession(y);
    case Disconnect(t) =>
    case Arrive(s) =>
      if s.key !in y.table {
        EnterOk(y, s);
        AnnounceOk(Enter(y, s), s);
      }
    case Leave(key) =>
      if key in y.table {
        DropOk(y, {y.table[key]});
      }
    case Pass(gone) =>
      DropOk(y, gone);
  }

  /** No session serves two devices. */
  lemma OneSession(y: System)
    requires Ok(y)
    ensures forall n, m :: n in y.devices && m in y.devices && n != m && y.devices[n].dtls != null ==>
                             y.devices[n].dtls != y.devices[m].dtls
    ensures forall n :: n in y.devices && y.devices[n].dtls != null ==> y.devices[n].dtls in y.admitted
  {
    assert forall n :: n in y.devices ==> DeviceOk(y, n, y.devices[n]);
  }

  /** No device is served by a session that has not been announced. */
  predicate Unannounced(y: System, s: Session) {
    forall n :: n in y.devices ==> y.devices[n].dtls != s
  }

  lemma EnterOk(y: System, s: Session)
    requires Ok(y) && s.key !in y.table && s !in y.admitted
    ensures Ok(Enter(y, s)) && Unannounced(Enter(y, s), s)
  {
    OneSession(y);
    var y' := Enter(y, s);
    forall n | n in y'.devices
      ensures DeviceOk(y', n, y'.devices[n])
    {
      assert DeviceOk(y, n, y.devices[n]);
    }
  }

  /** Announcing a session keeps the invariant exactly when the session is in the table, and has not been retired,
      by then. */
  lemma AnnounceOk(y: System, s: Session)
    requires Ok(y) && Unannounced(y, s)
    ensures Ok(Announce(y, s)) <==> InTable(y, s) && s !in y.retired
  {
    OneSession(y);
    var y' := Announce(y, s);
    if Ok(y') {
      assert DeviceOk(y', s.inner, y'.devices[s.inner]);
    } else {
      forall n | n in y'.devices && InTable(y, s) && s !in y.retired
        ensures DeviceOk(y', n, y'.devices[n])
      {
        if n != s.inner {
          assert DeviceOk(y, n, y.devices[n]);
        } else if n in y.devices {
          assert DeviceOk(y, n, y.devices[n]);
        }
      }
    }
  }

  lemma DropOk(y: System, gone: set<Session>)
    requires Ok(y) && gone <= y.table.Values
    ensures Ok(Drop(y, gone))
  {
    var y' := Drop(y, gone);
    forall n | n in y'.devices
      ensures DeviceOk(y', n, y'.devices[n])
    {
      assert DeviceOk(y, n, y.devices[n]);
    }
    assert forall s :: s in gone ==> s in y.admitted;
  }

  lemma {:induction false} RunOk(y: System, es: seq<Event>)
    requires Ok(y) && LegalRun(y, es)
    ensures Ok(Run(y, es)) && y.retired <= Run(y, es).retired
    decreases |es|
  {
    if es != [] {
      StepOk(y, es[0]);
      RunOk(Step(y, es[0]), es[1..]);
    }
  }

  /** In every reachable state each registered device has a transport of its own, and a session chosen for egress is
      in the table, under its own key, and attached. */
  lemma EveryRun(es: seq<Event>, n: Address6)
    requires LegalRun(START, es)
    ensures var y := Run(START, es);
            && (n in y.devices ==> Choose(y.devices[n]) != Nowhere)
            && match Choose(Get(y.devices, n))
               case OverDtls(s) => s.inner == n && InTable(y, s) && s !in y.detached
               case OverCstp(t) => t.inner == n
               case Nowhere => n !in y.devices
  {
    RunOk(START, es);
    var y := Run(START, es);
    if n in y.devices {
      assert DeviceOk(y, n, y.devices[n]);
    }
  }

  lemma {:induction false} RunConcat(y: System, es: seq<Event>, more: seq<Event>)
    ensures Run(y, es + more) == Run(Run(y, es), more)
    ensures LegalRun(y, es + more) <==> LegalRun(y, es) && LegalRun(Run(y, es), more)
    decreases |es|
  {
    if es == [] {
      assert es + more == more;
    } else {
      RunConcat(Step(y, es[0]), es[1..], more);
      assert (es + more)[1..] == es[1..] + more;
    }
  }

  /** A session that a fresh connect supersedes is never chosen again, whatever happens later. */
  lemma SupersededNeverChosen(es: seq<Event>, t: Tunnel, more: seq<Event>, n: Address6)
    requires LegalRun(START, es + [Connect(t)] + more)
    ensures var s := Get(Run(START, es).devices, t.inner).dtls;
            s != null ==> Choose(Get(Run(START, es + [Connect(t)] + more).devices, n)) != OverDtls(s)
  {
    RunConcat(START, es + [Connect(t)], more);
    RunConcat(START, es, [Connect(t)]);
    var y := Run(START, es);
    RunOk(START, es);
    assert Run(y, [Connect(t)]) == Step(y, Connect(t));
    StepOk(y, Connect(t));
    RunOk(Step(y, Connect(t)), more);
    var z := Run(START, es + [Connect(t)] + more);
    if n in z.devices {
      assert DeviceOk(z, n, z.devices[n]);
    }
  }

  /** The order in which a pass visits the table does not matter. */
  lemma DropTwice(y: System, a: set<Session>, b: set<Session>)
    ensures Drop(Drop(y, a), b) == Drop(y, a + b)
  {
    EvictedTwice(y.devices, a, b);
    assert Kept(Kept(y.table, a), b) == Kept(y.table, a + b);
    assert y.retired + a + b == y.retired + (a + b);
    assert y.detached + a + b == y.detached + (a + b);
  }

  lemma EvictedTwice(ds: Devices, a: set<Session>, b: set<Session>)
    ensures Evicted(Evicted(ds, a), b) == Evicted(ds, a + b)
  {
  }

  lemma DropNone(y: System)
    requires Ok(y)
    ensures Drop(y, {}) == y
  {
    forall n | n in y.devices
      ensures y.devices[n] != NOBODY
    {
      assert DeviceOk(y, n, y.devices[n]);
    }
    assert Evicted(y.devices, {}) == y.devices;
    assert Kept(y.table, {}) == y.table;
  }
}
