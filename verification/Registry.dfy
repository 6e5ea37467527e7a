/** The client registry of the bridge: one entry per device, reachable under its native and its CLAT address
    (cmd/era-ocserv/bridge.go). */
module Registry {
  import opened Wrappers
  import opened Bytes
  import opened Wire
  import opened Transports
  import opened RegistrySpec
  import opened RegistryRuns
  import Clatxlat
  import EdgeTheorems
  import PacketTooBig

  const PLACEHOLDER_CLAT_V4: Address4 := [192, 0, 0, 1]

  const PTB_CAP_NATIVE := 1400
  const PTB_CAP_CLAT := 1420

  /** What becomes of a packet from the TUN device. */
  datatype Pumped =
    | Ignored
    | TooBig(notice: Option<seq<byte>>) // dropped, with a Packet Too Big for its source if that is worth telling
    | Written(egress: Egress, packet: seq<byte>)

  class ActiveClient {
    ghost const native: Address6
    var cstp: Tunnel?
    var dtls: Session?
    var xlat: Option<Clatxlat.Translator>
    var clatV6: Option<Address6>

    constructor (ghost native: Address6)
      ensures this.native == native && cstp == null && dtls == null && xlat == None && clatV6 == None
    {
      this.native, cstp, dtls, xlat, clatV6 := native, null, null, None, None;
    }

    function View(): Device
      reads this`cstp, this`dtls
    {
      Device(cstp, dtls)
    }
  }

  // Addresses

  /** Each device's CLAT address, by native address: fixed, and shared with no other device's addresses. */
  type Plan = map<Address6, Option<Address6>>

  predicate PlanOk(plan: Plan) {
    forall n, m :: n in plan && m in plan ==> Apart(plan, n, m)
  }

  predicate Apart(plan: Plan, n: Address6, m: Address6)
    requires n in plan && m in plan
  {
    && (plan[n].Some? ==> plan[n].value != m)
    && (n != m && plan[n].Some? ==> plan[n] != plan[m])
  }

  /** A CLAT address equal to the native one counts as none. */
  function Effective(native: Address6, clat: Option<Address6>): Option<Address6>
  {
    if clat == Some(native) then None else clat
  }

  /** The addresses of all devices. */
  ghost predicate Owned(plan: Plan, addr: Address6) {
    exists n :: n in plan && Owns(plan, n, addr)
  }

  /** The address is the device's native or CLAT address. */
  predicate Owns(plan: Plan, n: Address6, addr: Address6)
    requires n in plan
  {
    addr == n || plan[n] == Some(addr)
  }

  // The map

  /** A device is registered under both its keys, as the same client, or under none. */
  ghost predicate KeyedAt(plan: Plan, clients: map<Address6, ActiveClient>, n: Address6)
    requires n in plan
  {
    && (n in clients ==> clients[n].native == n)
    && (plan[n].Some? ==>
          && (n in clients <==> plan[n].value in clients)
          && (n in clients ==> clients[plan[n].value] == clients[n]))
  }

  ghost predicate Keyed(plan: Plan, clients: map<Address6, ActiveClient>) {
    && (forall n {:trigger KeyedAt(plan, clients, n)} :: n in plan ==> KeyedAt(plan, clients, n))
    && (forall k {:trigger Owned(plan, k)} :: k in clients ==> Owned(plan, k))
  }

  /** A client's transports are its device's own, and it has a translator exactly when its device has a CLAT address. */
  ghost predicate Shape(plan: Plan, ac: ActiveClient)
    reads ac
  {
    && ac.native in plan && Translates(plan, ac)
    && (ac.cstp != null ==> ac.cstp.inner == ac.native) && (ac.dtls != null ==> ac.dtls.inner == ac.native)
  }

  ghost predicate Translates(plan: Plan, ac: ActiveClient)
    requires ac.native in plan
    reads ac`xlat, ac`clatV6
  {
    && ac.clatV6 == plan[ac.native]
    && ac.xlat == if ac.clatV6.Some? then Some(Clatxlat.Translator(PLACEHOLDER_CLAT_V4, ac.clatV6.value)) else None
  }

  /** The translator is yet to be installed, or it is the device's. */
  ghost predicate Ready(plan: Plan, ac: ActiveClient)
    reads ac`xlat, ac`clatV6
  {
    ac.native in plan && ((ac.xlat == None && ac.clatV6 == None) || Translates(plan, ac))
  }

  predicate Registered(clients: map<Address6, ActiveClient>, n: Address6, ac: ActiveClient) {
    n in clients && clients[n] == ac
  }

  /** The map with a client under its CLAT address too. */
  function Installed(clat: Option<Address6>, clients: map<Address6, ActiveClient>, ac: ActiveClient)
    : map<Address6, ActiveClient>
  {
    if clat.Some? && clat.value !in clients then clients[clat.value := ac] else clients
  }

  /** Where a device other than n is found, before and after n is registered or taken out. */
  ghost predicate KeptAt(plan: Plan, before: map<Address6, ActiveClient>, after: map<Address6, ActiveClient>,
      m: Address6) {
    (m in after <==> m in before) && (m in after ==> after[m] == before[m])
  }

  ghost predicate OthersKept(plan: Plan, before: map<Address6, ActiveClient>, after: map<Address6, ActiveClient>,
      n: Address6) {
    forall m {:trigger KeptAt(plan, before, after, m)} :: m in plan && m != n ==> KeptAt(plan, before, after, m)
  }

  /** Registering the client of a device under both its keys. */
  lemma KeyedInstalled(plan: Plan, before: map<Address6, ActiveClient>, ac: ActiveClient, n: Address6)
    requires PlanOk(plan) && Keyed(plan, before) && n in plan && ac.native == n
    requires n in before ==> before[n] == ac
    ensures var after := Installed(plan[n], before[n := ac], ac);
            Keyed(plan, after) && n in after && after[n] == ac && OthersKept(plan, before, after, n)
  {
    var after := Installed(plan[n], before[n := ac], ac);
    assert KeyedAt(plan, before, n);
    forall m | m in plan
      ensures KeyedAt(plan, after, m)
      ensures m != n ==> KeptAt(plan, before, after, m)
    {
      assert KeyedAt(plan, before, m);
      assert Apart(plan, n, m) && Apart(plan, m, n);
    }
    forall k | k in after
      ensures Owned(plan, k)
    {
      if k in before {
        assert Owned(plan, k);
      } else {
        assert Owns(plan, n, k);
      }
    }
  }

  /** Taking the client of a device out of both its keys. */
  lemma KeyedRemoved(plan: Plan, before: map<Address6, ActiveClient>, ac: ActiveClient, n: Address6)
    requires PlanOk(plan) && Keyed(plan, before) && n in plan && n in before && before[n] == ac
    ensures var after := Without(Without(before, Some(n), ac), plan[n], ac);
            Keyed(plan, after) && n !in after && OthersKept(plan, before, after, n)
  {
    var after := Without(Without(before, Some(n), ac), plan[n], ac);
    assert KeyedAt(plan, before, n);
    assert Apart(plan, n, n);
    forall m | m in plan
      ensures KeyedAt(plan, after, m)
      ensures m != n ==> KeptAt(plan, before, after, m)
    {
      assert KeyedAt(plan, before, m);
      assert Apart(plan, n, m) && Apart(plan, m, n);
    }
    forall k | k in after
      ensures Owned(plan, k)
    {
      assert Owned(plan, k);
    }
  }

  /** A client whose device is registered as another client, or not at all, has no key. */
  lemma KeylessElsewhere(plan: Plan, clients: map<Address6, ActiveClient>, ac: ActiveClient, n: Address6)
    requires Keyed(plan, clients) && n in plan && !(n in clients && clients[n] == ac)
    ensures Without(Without(clients, Some(n), ac), plan[n], ac) == clients
  {
    assert KeyedAt(plan, clients, n);
  }

  lemma OthersSame(plan: Plan, clients: map<Address6, ActiveClient>, n: Address6)
    ensures OthersKept(plan, clients, clients, n)
  {
  }

  /** The map after a client was looked at that may have lost its last transport. */
  function Dropped(clients: map<Address6, ActiveClient>, n: Address6, ac: ActiveClient, view: Device,
      clatV6: Option<Address6>)
    : map<Address6, ActiveClient>
  {
    if view == NOBODY then Without(Without(clients, Some(n), ac), Effective(n, clatV6), ac) else clients
  }

  /** Taking a client out of the keys of its device, or leaving it there. */
  lemma DroppedKeyed(plan: Plan, before: map<Address6, ActiveClient>, ac: ActiveClient, n: Address6)
    requires PlanOk(plan) && Keyed(plan, before) && n in plan && Effective(n, ac.clatV6) == plan[n]
    ensures var after := Dropped(before, n, ac, ac.View(), ac.clatV6);
            && Keyed(plan, after) && OthersKept(plan, before, after, n)
            && (Registered(after, n, ac) <==> Registered(before, n, ac) && ac.View() != NOBODY)
            && (Registered(before, n, ac) && n in after ==> after[n] == ac)
            && (!Registered(before, n, ac) ==> after == before)
  {
    OthersSame(plan, before, n);
    if Registered(before, n, ac) {
      KeyedRemoved(plan, before, ac, n);
    } else {
      KeylessElsewhere(plan, before, ac, n);
    }
  }

  /** A Packet Too Big goes back for an oversize packet, from the address it was sent to, if its source is to be
      told. */
  predicate NoticeFor(notice: Option<seq<byte>>, mtu: u32, pkt: seq<byte>)
    requires |pkt| >= 40
  {
    && (notice.Some? <==> PacketTooBig.Notifiable(pkt[8..24]) && pkt[8..24] != pkt[24..40])
    && (notice.Some? ==>
          |notice.value| >= 40 && PacketTooBig.IsPacketTooBig(View6(notice.value), pkt[24..40], pkt[8..24], mtu, pkt))
  }

  /** What becomes of a packet to a device, for its CLAT address or for its native one: it leaves over the transport the
      device prefers, translated or as it came, unless it is too big for that. */
  predicate PumpedFor(r: Pumped, d: Device, isClat: bool, pkt: seq<byte>, freshId: u16)
    requires |pkt| >= 40
  {
    if d == NOBODY then r == Ignored
    else if |pkt| > (if isClat then PTB_CAP_CLAT else PTB_CAP_NATIVE) then
      r.TooBig? && NoticeFor(r.notice, if isClat then PTB_CAP_CLAT else PTB_CAP_NATIVE, pkt)
    else if !isClat then r == Written(Choose(d), pkt)
    else
      match Clatxlat.Translator(PLACEHOLDER_CLAT_V4, pkt[24..40]).Inbound(pkt, freshId)
      case None => r == Ignored
      case Some(out) => r == Written(Choose(d), out)
  }

  /** The same, with the numbers written out: 1400 bytes is the most for a native address and 1420 for a CLAT one, the
      session is preferred to the tunnel, and the translator's placeholder is 192.0.0.1. */
  lemma PumpedMeans(r: Pumped, d: Device, isClat: bool, pkt: seq<byte>, freshId: u16)
    requires |pkt| >= 40
    ensures PumpedFor(r, d, isClat, pkt, freshId) <==>
              var mtu := if isClat then 1420 else 1400;
              var out := if isClat then Clatxlat.Translator([192, 0, 0, 1], pkt[24..40]).Inbound(pkt, freshId)
                         else Some(pkt);
              if d.dtls == null && d.cstp == null then r == Ignored
              else if |pkt| > mtu then r.TooBig? && NoticeFor(r.notice, mtu, pkt)
              else if out == None then r == Ignored
              else r == Written(if d.dtls != null then OverDtls(d.dtls) else OverCstp(d.cstp), out.value)
  {
    hide NoticeFor, Clatxlat.Translator.Inbound;
  }

  /** At most tunnels of device n have come to be held, by its client. */
  ghost predicate HolderKept(before: map<Tunnel, ActiveClient>, after: map<Tunnel, ActiveClient>, ac: ActiveClient,
      n: Address6) {
    && (forall t :: t in before ==> t in after && after[t] == before[t])
    && (forall t :: t in after && t !in before ==> after[t] == ac && t.inner == n)
  }

  lemma HolderSame(holder: map<Tunnel, ActiveClient>, ac: ActiveClient, n: Address6)
    ensures HolderKept(holder, holder, ac, n)
  {
  }

  lemma HolderPut(holder: map<Tunnel, ActiveClient>, t: Tunnel, ac: ActiveClient)
    requires t !in holder
    ensures HolderKept(holder, holder[t := ac], ac, t.inner)
  {
  }

  class Bridge {
    ghost const plan: Plan
    var clients: map<Address6, ActiveClient>
    ghost var made: set<ActiveClient>           // every client ever stored
    ghost var holder: map<Tunnel, ActiveClient> // the client each tunnel's handler holds

    ghost predicate Known()
      reads this
    {
      forall n :: n in plan && n in clients ==> clients[n] in made
    }

    /** Clients are registered exactly while they have a transport, and tunnels are held by the client they
        connected to. */
    ghost predicate MadeOk()
      reads this, made
    {
      && (forall ac :: ac in made ==>
            ac.native in plan && Shape(plan, ac) && (ac.View() != NOBODY <==> Registered(clients, ac.native, ac)))
      && (forall ac :: ac in made && ac.cstp != null ==> ac.cstp in holder && holder[ac.cstp] == ac)
      && (forall t :: t in holder ==> holder[t] in made && holder[t].native == t.inner)
    }

    ghost predicate Valid()
      reads this, made
    {
      PlanOk(plan) && Keyed(plan, clients) && Known() && MadeOk()
    }

    /** The registry as a map from devices to their transports. */
    ghost function Contents(): Devices
      reads this, made
    {
      map n | n in plan && n in clients && clients[n] in made :: clients[n].View()
    }

    /** What is known of a device's client. */
    lemma Entry(n: Address6)
      requires Valid() && n in plan
      ensures n in clients ==>
              clients[n] in made && clients[n].native == n && Shape(plan, clients[n]) && Translates(plan, clients[n])
      ensures n in clients && clients[n].cstp != null ==> clients[n].cstp.inner == n
      ensures n in clients && clients[n].dtls != null ==> clients[n].dtls.inner == n
      ensures n in clients ==> clients[n].View() != NOBODY
      ensures n in clients && clients[n].cstp != null ==>
              clients[n].cstp in holder && holder[clients[n].cstp] == clients[n]
      ensures n in clients <==> n in Contents()
      ensures Get(Contents(), n) == if n in clients then clients[n].View() else NOBODY
    {
      assert KeyedAt(plan, clients, n);
    }

    /** What is known of every registered device. */
    lemma ContentsOk()
      requires Valid()
      ensures forall n :: n in Contents() ==> Contents()[n] != NOBODY
      ensures forall n :: n in Contents() ==> Contents()[n].dtls != null ==> Contents()[n].dtls.inner == n
      ensures forall n :: n in Contents() ==> Contents()[n].cstp != null ==> Contents()[n].cstp.inner == n
    {
      forall n | n in Contents()
        ensures Contents()[n] != NOBODY
        ensures Contents()[n].dtls != null ==> Contents()[n].dtls.inner == n
        ensures Contents()[n].cstp != null ==> Contents()[n].cstp.inner == n
      {
        Entry(n);
      }
    }

    /** A device is registered, under its native and its CLAT address, exactly while it has a transport. */
    lemma KeysOf(n: Address6)
      requires Valid() && n in plan
      ensures n in clients <==> Get(Contents(), n).cstp != null || Get(Contents(), n).dtls != null
      ensures plan[n].Some? ==> (plan[n].value in clients <==> n in clients)
    {
      Entry(n);
      assert KeyedAt(plan, clients, n);
    }

    /** The CLAT key of a client is its device's. */
    lemma ClatKey(ac: ActiveClient)
      requires Valid() && ac.native in plan && Shape(plan, ac)
      ensures Effective(ac.native, ac.clatV6) == plan[ac.native]
    {
      assert Apart(plan, ac.native, ac.native);
    }

    /** What is known of the client a tunnel's handler holds. */
    lemma Held(t: Tunnel)
      requires Valid() && t in holder
      ensures var ac := holder[t];
              && ac in made && ac.native == t.inner && ac.native in plan && Shape(plan, ac)
              && (ac.cstp != null ==> ac.cstp in holder && holder[ac.cstp] == ac)
              && (ac.View() != NOBODY <==> Registered(clients, ac.native, ac))
              && (Get(Contents(), t.inner).cstp == t ==> Registered(clients, ac.native, ac))
    {
      if t.inner in clients {
        Entry(t.inner);
      }
    }

    constructor (ghost plan: Plan)
      requires PlanOk(plan)
      ensures Valid() && Contents() == map[] && this.plan == plan && made == {} && holder == map[]
    {
      this.plan := plan;
      clients, made, holder := map[], {}, map[];
    }

    ghost predicate Planned(inner: Address6, clat: Option<Address6>)
    {
      inner in plan && plan[inner] == Effective(inner, clat)
    }

    lemma PlannedIn(inner: Address6, clat: Option<Address6>)
      requires Planned(inner, clat)
      ensures inner in plan
    {
    }

    /** A step on one device's client: its keys agree, and the other clients are as they were. */
    twostate predicate Stepped(new ac: ActiveClient, n: Address6)
      reads this, made, ac
    {
      && old(Valid()) && n in plan && ac.native == n
      && Keyed(plan, clients) && OthersKept(plan, old(clients), clients, n)
      && made == old(made) + {ac} && (forall x :: x in old(made) && x != ac ==> unchanged(x))
      && (old(allocated(ac)) ==> ac in old(made))
      && (n in old(clients) ==> old(clients)[n] == ac) && (n in clients ==> clients[n] == ac)
      && Shape(plan, ac) && (ac.View() != NOBODY <==> Registered(clients, n, ac))
      && HolderKept(old(holder), holder, ac, n)
      && (ac.cstp != null ==> ac.cstp in holder && holder[ac.cstp] == ac)
    }

    twostate lemma SettledContents(new ac: ActiveClient, n: Address6)
      requires Stepped(ac, n)
      ensures Known() && Contents() == Put(old(Contents()), n, ac.View())
    {
      hide Shape, PlanOk, MadeOk, HolderKept;
      forall m | m in plan && m != n
        ensures m in clients <==> m in old(clients)
        ensures m in clients ==>
                clients[m] == old(clients)[m] && clients[m] in made && clients[m].View() == old(clients[m].View())
      {
        assert KeptAt(plan, old(clients), clients, m);
        assert KeyedAt(plan, old(clients), m);
      }
      hide Keyed, OthersKept;
    }

    twostate lemma SettledMade(new ac: ActiveClient, n: Address6)
      requires Stepped(ac, n)
      ensures MadeOk()
    {
      hide Shape, PlanOk, Keyed, Known;
      forall x | x in made && x != ac
        ensures x.native in plan && Shape(plan, x) && (x.View() != NOBODY <==> Registered(clients, x.native, x))
      {
        if x.native != n {
          assert KeptAt(plan, old(clients), clients, x.native);
        }
      }
    }

    /** After such a step the registry is valid, and only that device has changed. */
    twostate lemma Settled(new ac: ActiveClient, n: Address6)
      requires Stepped(ac, n)
      ensures Valid() && Contents() == Put(old(Contents()), n, ac.View())
    {
      SettledContents(ac, n);
      SettledMade(ac, n);
      hide OthersKept, Shape, MadeOk, Known, Contents;
    }

    /** The client stored under inner, or a new one. */
    method LoadOrCreateClient(inner: Address6) returns (ac: ActiveClient)
      modifies this`clients
      ensures clients == old(clients)[inner := ac]
      ensures inner in old(clients) ==> ac == old(clients)[inner]
      ensures inner !in old(clients) ==>
              fresh(ac) && ac.native == inner && ac.View() == NOBODY && ac.xlat == None && ac.clatV6 == None
    {
      if inner in clients {
        ac := clients[inner];
        assert clients == clients[inner := ac];
        return;
      }
      ac := new ActiveClient(inner);
      clients := clients[inner := ac];
    }

    /** Sets up the translator once, and the CLAT address as a second key, unless another client holds it. */
    method InstallCLAT(ac: ActiveClient, native: Address6, clat: Option<Address6>) returns (installed: bool)
      modifies this`clients, ac`xlat, ac`clatV6
      ensures installed <==> clat.Some? && clat != Some(native)
      ensures !installed ==> clients == old(clients) && ac.xlat == old(ac.xlat) && ac.clatV6 == old(ac.clatV6)
      ensures installed ==>
              clients == if clat.value in old(clients) then old(clients) else old(clients)[clat.value := ac]
      ensures installed && old(ac.xlat) == None ==>
              ac.clatV6 == clat && ac.xlat == Some(Clatxlat.Translator(PLACEHOLDER_CLAT_V4, clat.value))
      ensures installed && old(ac.xlat).Some? ==> ac.clatV6 == old(ac.clatV6) && ac.xlat == old(ac.xlat)
    {
      if clat == None || clat == Some(native) {
        return false;
      }
      if ac.xlat == None {
        var tr := Clatxlat.Translator.New(Clatxlat.Ip4(PLACEHOLDER_CLAT_V4), Clatxlat.Ip6(clat.value));
        if tr.Some? {
          ac.xlat := tr;
          ac.clatV6 := clat;
        }
      }
      if clat.value !in clients {
        clients := clients[clat.value := ac];
      }
      installed := true;
    }

    /** The client of a device, new or not, before a transport is put into it. */
    method LoadFor(inner: Address6) returns (ac: ActiveClient)
      requires Valid() && inner in plan
      modifies this`clients, this`made
      ensures clients == old(clients)[inner := ac] && (inner in old(clients) ==> old(clients)[inner] == ac)
      ensures made == old(made) + {ac} && (ac in old(made) || fresh(ac)) && (old(allocated(ac)) ==> ac in old(made))
      ensures ac.native == inner && Ready(plan, ac) && ac.View() == Get(old(Contents()), inner)
      ensures ac.cstp != null ==> ac.cstp.inner == inner && ac.cstp in holder && holder[ac.cstp] == ac
      ensures ac.dtls != null ==> ac.dtls.inner == inner
    {
      Entry(inner);
      hide Keyed, Known, MadeOk, Contents, Shape;
      ac := LoadOrCreateClient(inner);
      made := made + {ac};
    }

    /** Installing for a client that belongs to its device, new or not, completes it. */
    method InstallFor(ac: ActiveClient, n: Address6, clat: Option<Address6>, ghost before: map<Address6, ActiveClient>)
      requires Planned(n, clat) && ac.native == n && PlanOk(plan) && Keyed(plan, before)
      requires clients == before[n := ac] && (n in before ==> before[n] == ac)
      requires (ac.cstp != null ==> ac.cstp.inner == n) && (ac.dtls != null ==> ac.dtls.inner == n)
      requires Ready(plan, ac)
      modifies this`clients, ac`xlat, ac`clatV6
      ensures Shape(plan, ac) && Keyed(plan, clients) && OthersKept(plan, before, clients, n)
              && Registered(clients, n, ac)
    {
      hide Keyed, PlanOk, OthersKept;
      KeyedInstalled(plan, before, ac, n);
      var _ := InstallCLAT(ac, n, clat);
      assert clients == Installed(plan[n], before[n := ac], ac);
    }

    /** Removes a key, if it leads to the client. */
    method RemoveKey(key: Option<Address6>, ac: ActiveClient)
      modifies this`clients
      ensures clients == Without(old(clients), key, ac)
    {
      if key.Some? && key.value in clients && clients[key.value] == ac {
        clients := clients - {key.value};
      }
    }

    /** Removes a client from both its keys; a key that another client has taken over stays. */
    method DeregisterKeys(ac: ActiveClient, native: Address6)
      modifies this`clients
      ensures clients == Without(Without(old(clients), Some(native), ac), Effective(native, ac.clatV6), ac)
    {
      RemoveKey(Some(native), ac);
      RemoveKey(Effective(native, ac.clatV6), ac);
    }

    /** A tunnel takes over its client: the session there is superseded, and the tunnel there displaced. */
    method PutTunnel(ac: ActiveClient, t: Tunnel) returns (displaced: Tunnel?)
      modifies ac`cstp, ac`dtls
      ensures ac.View() == Device(t, null) && displaced == old(ac.cstp)
    {
      displaced := ac.cstp;
      ac.cstp := t;
      ac.dtls := null;
    }

    /** A session becomes its client's egress. */
    method PutSession(ac: ActiveClient, s: Session)
      modifies ac`dtls
      ensures ac.View() == Device(ac.cstp, s)
    {
      ac.dtls := s;
    }

    /** Registers a fresh tunnel under its device's keys. It supersedes the session there was, and displaces the tunnel
        there was, which is to be closed. */
    method Connect(t: Tunnel) returns (ac: ActiveClient, displaced: Tunnel?)
      requires Valid() && Planned(t.inner, t.clat) && t !in holder
      modifies this, made
      ensures Valid() && Contents() == Connected(old(Contents()), t) && displaced == Get(old(Contents()), t.inner).cstp
      ensures holder == old(holder)[t := ac] && made == old(made) + {ac} && (ac in old(made) || fresh(ac))
      ensures Get(Contents(), t.inner).cstp == t && Get(Contents(), t.inner).dtls == null
      ensures forall n: Address6 :: n != t.inner ==> Get(Contents(), n) == Get(old(Contents()), n)
      ensures t.inner in plan && t.inner in clients && (plan[t.inner].Some? ==> plan[t.inner].value in clients)
    {
      ghost var ds := Contents();
      hide HolderKept, PlanOk, OthersKept, Keyed, Known, MadeOk, Contents, Shape, Ready, Installed;
      ghost var before := clients;
      ac := LoadFor(t.inner);
      HolderPut(holder, t, ac);
      holder := holder[t := ac];
      displaced := PutTunnel(ac, t);
      InstallFor(ac, t.inner, t.clat, before);
      Settled(ac, t.inner);
      ConnectedMeans(ds, t);
      KeysOf(t.inner);
    }

    /** A tunnel leaves its client, if it is still there; empty when that leaves no transport. */
    method ClearTunnel(ac: ActiveClient, t: Tunnel) returns (empty: bool)
      modifies ac`cstp
      ensures ac.View() == Device(if old(ac.cstp) == t then null else old(ac.cstp), old(ac.dtls))
      ensures old(Shape(plan, ac)) ==> Shape(plan, ac)
      ensures empty <==> ac.View() == NOBODY
    {
      if ac.cstp == t {
        ac.cstp := null;
      }
      empty := ac.cstp == null && ac.dtls == null;
    }

    /** A session leaves its client, if it is still there; empty when that leaves no transport. */
    method ClearSession(ac: ActiveClient, s: Session) returns (empty: bool)
      modifies ac`dtls
      ensures ac.View() == Cleared(old(ac.View()), {s})
      ensures old(Shape(plan, ac)) ==> Shape(plan, ac)
      ensures empty <==> ac.View() == NOBODY
    {
      if ac.dtls == s {
        ac.dtls := null;
      }
      empty := ac.cstp == null && ac.dtls == null;
    }

    /** A tunnel leaves the client its handler holds, and the client its keys if that leaves no transport. */
    method TakeOut(ac: ActiveClient, t: Tunnel)
      requires Valid() && t in holder && holder[t] == ac
      modifies this`clients, ac`cstp
      ensures Valid() && Contents() == Disconnected(old(Contents()), t) && made == old(made) && holder == old(holder)
    {
      Held(t);
      Entry(t.inner);
      ClatKey(ac);
      hide HolderKept, PlanOk, OthersKept, Shape, Translates, Keyed, Known, MadeOk, Contents, Effective;
      ghost var before := clients;
      var empty := ClearTunnel(ac, t);
      if empty {
        DeregisterKeys(ac, t.inner);
      }
      assert clients == Dropped(before, t.inner, ac, ac.View(), ac.clatV6);
      hide Dropped;
      DroppedKeyed(plan, before, ac, t.inner);
      HolderSame(holder, ac, t.inner);
      assert made == old(made) + {ac};
      if Registered(before, t.inner, ac) {
        Settled(ac, t.inner);
      }
    }

    /** The teardown of a tunnel: its client, which it has held since it connected, loses it, and its keys if it was the
        last transport. What another handler has put there since is left alone. */
    method Disconnect(t: Tunnel, ac: ActiveClient)
      requires Valid() && t in holder && holder[t] == ac
      modifies this`clients, ac`cstp
      ensures Valid() && Contents() == Disconnected(old(Contents()), t) && made == old(made) && holder == old(holder)
      ensures Get(Contents(), t.inner).cstp ==
              if old(Get(Contents(), t.inner).cstp) == t then null else old(Get(Contents(), t.inner).cstp)
      ensures Get(Contents(), t.inner).dtls == old(Get(Contents(), t.inner).dtls)
      ensures forall n: Address6 :: n != t.inner ==> Get(Contents(), n) == Get(old(Contents()), n)
      ensures t.inner in clients <==> Get(Contents(), t.inner).cstp != null || Get(Contents(), t.inner).dtls != null
      ensures t.inner in plan && (plan[t.inner].Some? ==> (plan[t.inner].value in clients <==> t.inner in clients))
    {
      ghost var ds := Contents();
      Held(t);
      TakeOut(ac, t);
      hide Valid, Contents, Keyed;
      DisconnectedMeans(ds, t);
      KeysOf(t.inner);
    }

    /** A new session becomes its device's egress. */
    method OnAdmit(s: Session)
      requires Valid() && Planned(s.inner, s.clat)
      modifies this`clients, this`made, made
      ensures Valid() && Contents() == Admitted(old(Contents()), s)
      ensures holder == old(holder) && forall x :: x in made && x !in old(made) ==> fresh(x)
      ensures Get(Contents(), s.inner).dtls == s
      ensures Get(Contents(), s.inner).cstp == old(Get(Contents(), s.inner).cstp)
      ensures forall n: Address6 :: n != s.inner ==> Get(Contents(), n) == Get(old(Contents()), n)
      ensures s.inner in plan && s.inner in clients && (plan[s.inner].Some? ==> plan[s.inner].value in clients)
    {
      ghost var ds := Contents();
      hide HolderKept, PlanOk, OthersKept, Keyed, Known, MadeOk, Contents, Shape, Ready;
      ghost var before := clients;
      var ac := LoadFor(s.inner);
      HolderSame(holder, ac, s.inner);
      PutSession(ac, s);
      InstallFor(ac, s.inner, s.clat, before);
      Settled(ac, s.inner);
      AdmittedMeans(ds, s);
      KeysOf(s.inner);
    }

    /** An evicted session leaves egress; its device leaves the registry if that was its last transport. */
    method OnEvict(s: Session)
      requires Valid() && s.inner in plan
      modifies this`clients, made
      ensures Valid() && Contents() == EvictedOne(old(Contents()), s)
      ensures holder == old(holder) && made == old(made)
      ensures Get(Contents(), s.inner).dtls ==
              if old(Get(Contents(), s.inner).dtls) == s then null else old(Get(Contents(), s.inner).dtls)
      ensures Get(Contents(), s.inner).cstp == old(Get(Contents(), s.inner).cstp)
      ensures forall n: Address6 :: n != s.inner ==> Get(Contents(), n) == Get(old(Contents()), n)
      ensures s.inner in clients <==> Get(Contents(), s.inner).cstp != null || Get(Contents(), s.inner).dtls != null
      ensures plan[s.inner].Some? ==> (plan[s.inner].value in clients <==> s.inner in clients)
    {
      ghost var ds := Contents();
      Entry(s.inner);
      hide HolderKept, PlanOk, OthersKept, Keyed, Known, MadeOk, Contents, Shape, Translates, Effective;
      if s.inner in clients {
        EvictFrom(clients[s.inner], s);
      }
      EvictedOneMeans(ds, s);
      KeysOf(s.inner);
    }

    method EvictFrom(ac: ActiveClient, s: Session)
      requires Valid() && s.inner in plan && Registered(clients, s.inner, ac)
      modifies this`clients, ac`dtls
      ensures Valid() && Contents() == EvictedOne(old(Contents()), s)
      ensures holder == old(holder) && made == old(made)
    {
      Entry(s.inner);
      ClatKey(ac);
      hide HolderKept, PlanOk, OthersKept, Keyed, Known, MadeOk, Contents, Shape, Translates, Effective;
      ghost var before := clients;
      var empty := ClearSession(ac, s);
      if empty {
        DeregisterKeys(ac, s.inner);
      }
      assert clients == Dropped(before, s.inner, ac, ac.View(), ac.clatV6);
      hide Dropped;
      DroppedKeyed(plan, before, ac, s.inner);
      HolderSame(holder, ac, s.inner);
      assert made == old(made) + {ac};
      Settled(ac, s.inner);
    }

    /** The transport a client prefers. */
    method ChooseTransport(ac: ActiveClient) returns (e: Egress)
      ensures e == Choose(ac.View())
    {
      if ac.dtls != null {
        return OverDtls(ac.dtls);
      }
      e := if ac.cstp != null then OverCstp(ac.cstp) else Nowhere;
    }

    /** Routes a packet from the TUN device. Nothing longer than 1400 bytes reaches a client. */
    method PumpPacket(pkt: seq<byte>, freshId: u16) returns (r: Pumped)
      requires Valid()
      ensures |pkt| < 40 || pkt[0] / 16 != 6 ==> r == Ignored
      ensures |pkt| >= 40 && pkt[0] / 16 == 6 && !Owned(plan, pkt[24..40]) ==> r == Ignored
      ensures forall n :: |pkt| >= 40 && pkt[0] / 16 == 6 && n in plan && Owns(plan, n, pkt[24..40]) ==>
                PumpedFor(r, Get(Contents(), n), pkt[24..40] != n, pkt, freshId)
      ensures r.Written? ==> |r.packet| <= 1400 && r.egress != Nowhere
    {
      if |pkt| < 40 || pkt[0] / 16 != 6 {
        return Ignored;
      }
      var dst: Address6 := pkt[24..40];
      if dst !in clients {
        Unrouted(dst);
        return Ignored;
      }
      var ac := clients[dst];
      Routed(dst);
      hide PumpedFor, Keyed, PlanOk, MadeOk, Contents, Known, Shape;
      r := PumpToClient(ac, pkt, freshId);
    }

    /** Sends a packet on to its client, if it fits. */
    method PumpToClient(ac: ActiveClient, pkt: seq<byte>, freshId: u16) returns (r: Pumped)
      requires |pkt| >= 40 && ac.View() != NOBODY
      requires ac.clatV6 == Some(pkt[24..40]) ==> ac.xlat == Some(Clatxlat.Translator(PLACEHOLDER_CLAT_V4, pkt[24..40]))
      ensures PumpedFor(r, ac.View(), ac.clatV6 == Some(pkt[24..40]), pkt, freshId)
      ensures r.Written? ==> |r.packet| <= 1400 && r.egress != Nowhere
    {
      hide NoticeFor, PacketTooBig.IsPacketTooBig, PacketTooBig.Notifiable, Clatxlat.Translator.Inbound;
      var dst: Address6 := pkt[24..40];
      var tr := ChooseTransport(ac);
      var isClat := ac.clatV6 == Some(dst);
      if isClat {
        if |pkt| > PTB_CAP_CLAT {
          r := OriginatePTB(dst, PTB_CAP_CLAT, pkt);
          return;
        }
      } else if |pkt| > PTB_CAP_NATIVE {
        r := OriginatePTB(dst, PTB_CAP_NATIVE, pkt);
        return;
      }
      if isClat {
        var translated := ac.xlat.value.TunToClient(pkt, freshId);
        if translated == None {
          return Ignored;
        }
        EdgeTheorems.InboundLength(ac.xlat.value, pkt, freshId);
        return Written(tr, translated.value);
      }
      r := Written(tr, pkt);
    }

    method OriginatePTB(dst: Address6, mtu: u32, pkt: seq<byte>) returns (r: Pumped)
      requires |pkt| >= 40 && dst == pkt[24..40]
      ensures r.TooBig? && NoticeFor(r.notice, mtu, pkt)
    {
      var notice := PacketTooBig.PacketTooBigFor(dst, mtu, pkt);
      r := TooBig(notice);
    }

    /** No device behind an address that is no key. */
    lemma Unrouted(dst: Address6)
      requires Valid() && dst !in clients
      ensures forall n :: n in plan && Owns(plan, n, dst) ==> Get(Contents(), n) == NOBODY
    {
      forall n | n in plan && Owns(plan, n, dst)
        ensures Get(Contents(), n) == NOBODY
      {
        assert KeyedAt(plan, clients, n);
      }
    }

    /** Behind a key stands the client of its owner. */
    lemma Routed(dst: Address6)
      requires Valid() && dst in clients
      ensures Owned(plan, dst)
      ensures forall n :: n in plan && Owns(plan, n, dst) ==> Serves(clients[dst], n, dst)
    {
      assert Owned(plan, dst);
      hide Known, MadeOk, Contents, Shape, PlanOk;
      forall n | n in plan && Owns(plan, n, dst)
        ensures Serves(clients[dst], n, dst)
      {
        assert KeyedAt(plan, clients, n);
        Entry(n);
      }
    }

    /** The client is that of device n, with a translator for its CLAT address. */
    ghost predicate Serves(ac: ActiveClient, n: Address6, dst: Address6)
      reads this, made, ac
    {
      && ac.View() == Get(Contents(), n) && ac.View() != NOBODY
      && (dst == n ==> ac.clatV6 != Some(dst))
      && (dst != n ==> ac.clatV6 == Some(dst) && ac.xlat == Some(Clatxlat.Translator(PLACEHOLDER_CLAT_V4, dst)))
    }
  }

  /** The map without a key, if it leads to ac. */
  function Without(clients: map<Address6, ActiveClient>, key: Option<Address6>, ac: ActiveClient)
    : map<Address6, ActiveClient>
  {
    if key.Some? && key.value in clients && clients[key.value] == ac then clients - {key.value} else clients
  }
}
