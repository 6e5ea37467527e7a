/** What the registry's promise comes to at lock granularity, when a transport arrives for a device while another
    leaves it (cmd/era-ocserv/bridge.go). Every load, store and deletion of the map is a step of its own, and so is
    every critical section of a client. */
module RegistryRace {
  import opened Wrappers
  import opened Wire
  import opened Transports
  import opened RegistrySpec
  import opened Registry

  datatype Arrival = Tunnelled(tunnel: Tunnel) | Joined(session: Session) {
    function Inner(): Address6
    {
      if Tunnelled? then tunnel.inner else session.inner
    }

    function Clat(): Option<Address6>
    {
      if Tunnelled? then tunnel.clat else session.clat
    }

    /** The transport is its device's. */
    predicate In(d: Device) {
      if Tunnelled? then d.cstp == tunnel else d.dtls == session
    }
  }

  datatype Departure = Closing(tunnel: Tunnel) | Evicting(session: Session) {
    function Inner(): Address6
    {
      if Closing? then tunnel.inner else session.inner
    }

    function Left(d: Device): Device
    {
      if Evicting? then Cleared(d, {session}) else if d.cstp == tunnel then Device(null, d.dtls) else d
    }
  }

  /** When the steps happen: those of the arrival, which loads its client, puts its transport there and installs the
      CLAT key; and those of the departure, which finds its client, clears its transport there and removes the
      native and the CLAT key if that left none. */
  datatype Times = Times(load: nat, put: nat, install: nat, find: nat, clear: nat, native: nat, clat: nat) {
    predicate Ordered() {
      && load < put < install && find < clear < native < clat
      && {load, put, install} !! {find, clear, native, clat}
    }
  }

  /** The departure leaves the client of the device without a transport before the arrival puts one there. A session
      finds that client under its key; a tunnel has held its own since it connected. */
  predicate Emptied(ds: Devices, d: Departure, o: Times) {
    && o.clear < o.put
    && if d.Closing? then Get(ds, d.Inner()) == Device(d.tunnel, null)
       else d.Left(Get(ds, d.Inner())) == NOBODY && (d.Inner() in ds || o.load < o.find)
  }

  /** One arrival and one departure under way, with what each of their threads has in its variables. */
  class Race {
    const b: Bridge
    const a: Arrival
    const d: Departure
    const o: Times
    var client: ActiveClient? // the one the arrival loaded
    var found: ActiveClient?  // the one the departure found or holds
    var empty: bool
    ghost const first: ActiveClient? // the one the device had at the start
    ghost const view: Device
    ghost const lost: bool

    ghost predicate Orphan()
      reads this
    {
      d.Closing? && found != first
    }

    /** Which clients the threads have met before time k. */
    ghost predicate Met(k: nat)
      reads this
    {
      && d.Inner() == a.Inner() && o.Ordered()
      && (client != null <==> k > o.load)
      && (k > o.load ==> (client == first <==> first != null && !(lost && o.native < o.load)))
      && (d.Closing? ==> found != null && (client != null && client != first ==> client != found))
      && (d.Evicting? ==>
            found == if k <= o.find then null
                     else if first != null then first
                     else if o.load < o.find then client
                     else null)
      && (empty <==> k > o.clear && (lost || Orphan()))
      && (lost ==> o.clear < o.put && (d.Evicting? && first == null ==> o.load < o.find))
      && (lost && d.Closing? ==> found == first)
    }

    /** The transports of those clients. */
    ghost predicate Views(k: nat)
      reads this, client, found, first
    {
      && (first != null && !(k > o.put && client == first) ==>
            first.View() == if k > o.clear && found == first then d.Left(view) else view)
      && (client != null && client != first && k <= o.put ==> client.View() == NOBODY)
      && (client != null && k > o.put ==> a.In(client.View()))
      && (Orphan() && found != null ==> found.View() == NOBODY)
      && (first != null && (d.Closing? ==> found == first) ==> (lost <==> o.clear < o.put && d.Left(view) == NOBODY))
      && (first == null && d.Evicting? ==> (lost <==> o.clear < o.put && o.load < o.find))
      && !(a.Joined? && d.Evicting? && a.session == d.session) && !(a.Tunnelled? && d.Closing? && a.tunnel == d.tunnel)
    }

    /** Their translators. */
    ghost predicate Clats(k: nat)
      requires a.Inner() in b.plan
      reads this, client, found, first
    {
      var clat := b.plan[a.Inner()];
      && clat == Effective(a.Inner(), a.Clat()) && clat != Some(a.Inner())
      && (first != null ==> first.clatV6 == clat && (clat.Some? ==> first.xlat.Some?))
      && (Orphan() && found != null ==> found.clatV6 == clat)
      && (client != null && client != first && k <= o.install ==> client.clatV6 == None && client.xlat == None)
      && (client != null && client != first && k > o.install ==> client.clatV6 == clat)
    }

    /** Where the keys of the device lead. */
    ghost predicate Keys(k: nat)
      requires a.Inner() in b.plan
      reads this, b
    {
      var n, clat := a.Inner(), b.plan[a.Inner()];
      && (k <= o.load ==> Leads(b.clients, n, if lost && k > o.native then null else first))
      && (k > o.load ==> Leads(b.clients, n, if lost && o.load < o.native < k then null else client))
      && (clat.Some? && k <= o.install ==> Leads(b.clients, clat.value, if lost && k > o.clat then null else first))
      && (clat.Some? && k > o.install ==>
            Leads(b.clients, clat.value,
              if lost && o.install < o.clat < k then null
              else if o.install < o.clat && first != null then first
              else client))
    }

    ghost predicate Valid(k: nat)
      reads this, b, client, found, first
    {
      a.Inner() in b.plan && Met(k) && Views(k) && Clats(k) && Keys(k)
    }

    constructor (b: Bridge, a: Arrival, d: Departure, held: ActiveClient?, o: Times)
      requires b.Valid() && b.Planned(a.Inner(), a.Clat()) && d.Inner() == a.Inner() && o.Ordered()
      requires d.Closing? ==> d.tunnel in b.holder && held == b.holder[d.tunnel]
      requires a.Tunnelled? ==> a.tunnel !in b.holder
      requires a.Joined? && d.Evicting? ==> a.session != d.session
      ensures Valid(0) && this.b == b && this.a == a && this.d == d && this.o == o
      ensures lost <==> Emptied(b.Contents(), d, o)
      ensures client == null && (first != null ==> first in b.made) && (found != null ==> found in b.made)
    {
      var n := a.Inner();
      this.b, this.a, this.d, this.o := b, a, d, o;
      client, found, empty := null, if d.Closing? then held else null, false;
      first := if n in b.clients then b.clients[n] else null;
      view := Get(b.Contents(), n);
      lost := Emptied(b.Contents(), d, o);
      new;
      Start(b, n, d, held);
    }

    method Load(k: nat)
      requires Valid(k) && k == o.load
      modifies this`client, b`clients
      ensures Valid(k + 1) && (client == first || fresh(client))
    {
      client := b.LoadOrCreateClient(a.Inner());
    }

    method Put(k: nat)
      requires Valid(k) && k == o.put
      modifies client
      ensures Valid(k + 1)
    {
      if a.Tunnelled? {
        var _ := b.PutTunnel(client, a.tunnel);
      } else {
        b.PutSession(client, a.session);
      }
    }

    method Install(k: nat)
      requires Valid(k) && k == o.install
      modifies b`clients, client
      ensures Valid(k + 1)
    {
      var _ := b.InstallCLAT(client, a.Inner(), a.Clat());
    }

    method Find(k: nat)
      requires Valid(k) && k == o.find
      modifies this`found
      ensures Valid(k + 1) && (found == old(found) || found == first || found == client)
    {
      if d.Evicting? && d.Inner() in b.clients {
        found := b.clients[d.Inner()];
      }
    }

    method Clear(k: nat)
      requires Valid(k) && k == o.clear
      modifies this`empty, found
      ensures Valid(k + 1)
    {
      if found != null {
        if d.Closing? {
          empty := b.ClearTunnel(found, d.tunnel);
        } else {
          empty := b.ClearSession(found, d.session);
        }
      }
    }

    method RemoveNative(k: nat)
      requires Valid(k) && k == o.native
      modifies b`clients
      ensures Valid(k + 1)
    {
      if empty {
        b.RemoveKey(Some(d.Inner()), found);
      }
    }

    method RemoveClat(k: nat)
      requires Valid(k) && k == o.clat
      modifies b`clients
      ensures Valid(k + 1)
    {
      if empty {
        b.RemoveKey(Effective(d.Inner(), found.clatV6), found);
      }
    }

    /** Between the steps nothing changes. */
    lemma Idle(k: nat)
      requires Valid(k) && k !in {o.load, o.put, o.install, o.find, o.clear, o.native, o.clat}
      ensures Valid(k + 1)
    {
    }

    /** The step of time k, if there is one. */
    method Act(k: nat)
      requires Valid(k)
      modifies this`client, this`found, this`empty, b`clients, client, found
      ensures Valid(k + 1) && (client == old(client) || client == first || fresh(client))
      ensures found == old(found) || found == first || found == old(client)
    {
      hide *;
      if k == o.load {
        Load(k);
      } else if k == o.put {
        Put(k);
      } else if k == o.install {
        Install(k);
      } else if k == o.find {
        Find(k);
      } else if k == o.clear {
        Clear(k);
      } else if k == o.native {
        RemoveNative(k);
      } else if k == o.clat {
        RemoveClat(k);
      } else {
        Idle(k);
      }
    }

    /** What is left when all steps are done. */
    lemma Done(k: nat)
      requires Valid(k) && k > o.install && k > o.clat
      ensures client != null && a.In(client.View()) && a.Inner() in b.plan
      ensures Registered(b.clients, a.Inner(), client) <==> !(lost && o.load < o.native)
      ensures b.plan[a.Inner()].Some? ==>
              (Registered(b.clients, b.plan[a.Inner()].value, client) <==> !(lost && o.install < o.clat))
    {
    }

    /** All steps, in the order of their times. */
    method Finish(ghost known: set<ActiveClient>)
      requires Valid(0) && client == null && (first != null ==> first in known) && (found != null ==> found in known)
      modifies this`client, this`found, this`empty, b`clients, known
      ensures client != null && a.In(client.View()) && a.Inner() in b.plan
      ensures Registered(b.clients, a.Inner(), client) <==> !(lost && o.load < o.native)
      ensures b.plan[a.Inner()].Some? ==>
              (Registered(b.clients, b.plan[a.Inner()].value, client) <==> !(lost && o.install < o.clat))
    {
      hide *;
      var end := o.install + o.clat + 1;
      for k := 0 to end
        invariant Valid(k) && (client != null ==> client in known || fresh(client))
        invariant found != null ==> found in known || fresh(found)
      {
        Act(k);
      }
      Done(end);
    }
  }

  /** The key leads to the client, or to none. */
  predicate Leads(clients: map<Address6, ActiveClient>, key: Address6, ac: ActiveClient?) {
    if ac == null then key !in clients else Registered(clients, key, ac)
  }

  /** One arrival and one departure, interleaved in any way. The arrival misses its native key exactly when the
      departure empties the client and removes that key after the client was loaded, and its CLAT key exactly when
      the departure empties the client and removes that key after it was installed. */
  method Interleave(b: Bridge, a: Arrival, d: Departure, held: ActiveClient?, o: Times) returns (ac: ActiveClient)
    requires b.Valid() && b.Planned(a.Inner(), a.Clat()) && d.Inner() == a.Inner() && o.Ordered()
    requires d.Closing? ==> d.tunnel in b.holder && held == b.holder[d.tunnel]
    requires a.Tunnelled? ==> a.tunnel !in b.holder
    requires a.Joined? && d.Evicting? ==> a.session != d.session
    modifies b`clients, b.made
    ensures a.In(ac.View())
    ensures Registered(b.clients, a.Inner(), ac) <==> !(Emptied(old(b.Contents()), d, o) && o.load < o.native)
    ensures b.plan[a.Inner()].Some? ==>
              (Registered(b.clients, b.plan[a.Inner()].value, ac) <==>
                  !(Emptied(old(b.Contents()), d, o) && o.install < o.clat))
  {
    var r := new Race(b, a, d, held, o);
    hide *;
    r.Finish(b.made);
    ac := r.client;
  }

  /** What a race starts from. */
  lemma Start(b: Bridge, n: Address6, d: Departure, held: ActiveClient?)
    requires b.Valid() && n in b.plan && d.Inner() == n
    requires d.Closing? ==> d.tunnel in b.holder && held == b.holder[d.tunnel]
    ensures b.plan[n] != Some(n) && Effective(n, b.plan[n]) == b.plan[n]
    ensures var first := if n in b.clients then b.clients[n] else null;
            && Get(b.Contents(), n) == (if first == null then NOBODY else first.View())
            && (n in b.Contents() <==> first != null)
            && (first != null ==>
                  first in b.made && first.native == n && first.View() != NOBODY && first.clatV6 == b.plan[n])
            && (first != null && b.plan[n].Some? ==> first.xlat.Some?)
            && (b.plan[n].Some? ==>
                  if first == null then b.plan[n].value !in b.clients
                  else Registered(b.clients, b.plan[n].value, first))
            && (first != null && first.cstp != null ==> first.cstp in b.holder && b.holder[first.cstp] == first)
            && (d.Closing? ==>
                  && held in b.made && held.native == n && held.clatV6 == b.plan[n]
                  && (b.plan[n].Some? ==> held.xlat.Some?))
            && (d.Closing? && held != first ==> held.View() == NOBODY)
  {
    b.Entry(n);
    assert Apart(b.plan, n, n);
    assert KeyedAt(b.plan, b.clients, n);
    if d.Closing? {
      b.Held(d.tunnel);
    }
  }

  /** A connect loads its client; that client's last session, or one that another connect has superseded, is evicted
      and the keys removed; and only then the tunnel is stored. Its native address no longer leads to it, although
      its CLAT address does. */
  method SeparatedConnect(b: Bridge, t: Tunnel, s: Session) returns (ac: ActiveClient)
    requires b.Valid() && b.Planned(t.inner, t.clat) && s.inner == t.inner && t !in b.holder
    requires Get(b.Contents(), t.inner) in {NOBODY, Device(null, s)}
    modifies b`clients, b.made
    ensures ac.cstp == t && !Registered(b.clients, t.inner, ac)
    ensures b.plan[t.inner].Some? ==> Registered(b.clients, b.plan[t.inner].value, ac)
  {
    var o := Times(0, 5, 6, 1, 2, 3, 4);
    assert Emptied(b.Contents(), Evicting(s), o);
    hide Bridge.Valid, Bridge.Contents, Emptied;
    ac := Interleave(b, Tunnelled(t), Evicting(s), null, o);
  }

  /** A tunnel closes and a new one connects after the native key is gone but before the CLAT key is. The CLAT
      address of the device no longer leads to the new tunnel, although its native address does. */
  method SeparatedDisconnect(b: Bridge, t: Tunnel, last: Tunnel) returns (ac: ActiveClient)
    requires b.Valid() && b.Planned(t.inner, t.clat) && last.inner == t.inner && t !in b.holder && last in b.holder
    requires Get(b.Contents(), t.inner) == Device(last, null) && b.plan[t.inner].Some?
    modifies b`clients, b.made
    ensures ac.cstp == t && Registered(b.clients, t.inner, ac) && !Registered(b.clients, b.plan[t.inner].value, ac)
  {
    var o := Times(3, 4, 5, 0, 1, 2, 6);
    var held := b.clients[t.inner];
    ac := Interleave(b, Tunnelled(t), Closing(last), held, o);
  }
}
