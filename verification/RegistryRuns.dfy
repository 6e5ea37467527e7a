/** What every run of the registry leads to, in terms of what happened: whose transport each device has, and which
    sessions the table holds. */
module RegistryRuns {
  import opened Wrappers
  import opened ProxyUdp
  import opened Wire
  import opened Transports
  import opened RegistrySpec

  // Single steps

  /** A tunnel leaves its device, and the registry if the device has nothing else; nothing else changes. */
  lemma DisconnectedMeans(ds: Devices, t: Tunnel)
    ensures var after := Disconnected(ds, t);
            && Get(after, t.inner).cstp == (if Get(ds, t.inner).cstp == t then null else Get(ds, t.inner).cstp)
            && Get(after, t.inner).dtls == Get(ds, t.inner).dtls
            && forall n: Address6 :: n != t.inner ==> Get(after, n) == Get(ds, n)
  {
  }

  /** A fresh tunnel is all its device has. */
  lemma ConnectedMeans(ds: Devices, t: Tunnel)
    ensures var after := Connected(ds, t);
            && Get(after, t.inner).cstp == t && Get(after, t.inner).dtls == null
            && forall n: Address6 :: n != t.inner ==> Get(after, n) == Get(ds, n)
  {
  }

  /** A new session joins the tunnel of its device, in place of the session there was. */
  lemma AdmittedMeans(ds: Devices, s: Session)
    ensures var after := Admitted(ds, s);
            && Get(after, s.inner).dtls == s && Get(after, s.inner).cstp == Get(ds, s.inner).cstp
            && forall n: Address6 :: n != s.inner ==> Get(after, n) == Get(ds, n)
  {
  }

  /** Sessions that are gone leave every device they served, and nothing else changes. */
  lemma EvictedMeans(ds: Devices, gone: set<Session>, n: Address6)
    ensures var after := Evicted(ds, gone);
            && Get(after, n).cstp == Get(ds, n).cstp
            && Get(after, n).dtls == if Get(ds, n).dtls != null && Get(ds, n).dtls in gone then null
                  else Get(ds, n).dtls
  {
  }

  /** The same, for one session. */
  lemma EvictedOneMeans(ds: Devices, s: Session)
    ensures var after := EvictedOne(ds, s);
            && Get(after, s.inner).cstp == Get(ds, s.inner).cstp
            && Get(after, s.inner).dtls == (if Get(ds, s.inner).dtls == s then null else Get(ds, s.inner).dtls)
            && forall n: Address6 :: n != s.inner ==> Get(after, n) == Get(ds, n)
  {
  }

  /** Datagrams belong to one session exactly if they come from the same address and port and go to the same, IPv4
      in either form. */
  lemma KeyExact(a: FourTuple, b: FourTuple)
    ensures a.Normalised() == b.Normalised() <==>
              && Unmapped(a.src.addr) == Unmapped(b.src.addr) && a.src.port == b.src.port
              && Unmapped(a.dst.addr) == Unmapped(b.dst.addr) && a.dst.port == b.dst.port
  {
    UnmapIs(a.src.addr);
    UnmapIs(b.src.addr);
    UnmapIs(a.dst.addr);
    UnmapIs(b.dst.addr);
  }

  // Histories

  /** The device n has a new tunnel. */
  predicate ConnectsAt(e: Event, n: Address6) {
    e.Connect? && e.tunnel.inner == n
  }

  /** The session the table holds under a key: the first that arrives while it holds none, until the client leaves
      or a pass evicts it. */
  function Tabled(es: seq<Event>, k: FourTuple): Option<Session>
  {
    if es == [] then None
    else
      var e, before := es[|es| - 1], Tabled(es[..|es| - 1], k);
      if before.None? then if e.Arrive? && e.session.key == k then Some(e.session) else None
      else if e == Leave(k) || (e.Pass? && before.value in e.gone) then None
      else before
  }

  /** The i-th event starts a session. */
  predicate Starts(es: seq<Event>, i: nat)
    requires i < |es|
  {
    es[i].Arrive? && Tabled(es[..i], es[i].session.key).None?
  }

  /** Since the i-th event, which connected t, its device has not connected anew, nor has t disconnected. */
  predicate Holds(es: seq<Event>, i: nat, t: Tunnel)
    requires i < |es|
  {
    es[i] == Connect(t) && forall j :: i < j < |es| ==> !ConnectsAt(es[j], t.inner) && es[j] != Disconnect(t)
  }

  /** Since the i-th event, which started s, its device has not connected anew or started another session, nor has s
      left or been evicted. */
  predicate Serves(es: seq<Event>, i: nat, s: Session)
    requires i < |es|
  {
    && es[i] == Arrive(s) && Starts(es, i)
    && forall j :: i < j < |es| ==>
         && !ConnectsAt(es[j], s.inner) && !(Starts(es, j) && es[j].session.inner == s.inner)
         && es[j] != Leave(s.key) && !(es[j].Pass? && s in es[j].gone)
  }

  /** The last event of a run. */
  lemma LastStep(es: seq<Event>)
    requires es != [] && LegalRun(START, es)
    ensures var h, e := es[..|es| - 1], es[|es| - 1];
            && LegalRun(START, h) && Ok(Run(START, h)) && Legal(Run(START, h), e)
            && Run(START, es) == Step(Run(START, h), e) && Ok(Run(START, es))
  {
    var h, e := es[..|es| - 1], es[|es| - 1];
    assert es == h + [e];
    RunConcat(START, h, [e]);
    assert Run(Step(Run(START, h), e), []) == Step(Run(START, h), e);
    RunOk(START, h);
    StepOk(Run(START, h), e);
  }

  // Tunnels

  /** What a step does to the tunnel of a device. */
  lemma CstpStep(y: System, e: Event, n: Address6)
    requires Ok(y)
    ensures Get(Step(y, e).devices, n).cstp ==
              if ConnectsAt(e, n) then e.tunnel
              else if e.Disconnect? && Get(y.devices, n).cstp == e.tunnel then null
              else Get(y.devices, n).cstp
  {
    assert n in y.devices ==> DeviceOk(y, n, y.devices[n]);
  }

  lemma HoldsLonger(h: seq<Event>, e: Event, t: Tunnel)
    ensures (exists i :: 0 <= i <= |h| && Holds(h + [e], i, t)) <==>
              || e == Connect(t)
              || (!ConnectsAt(e, t.inner) && e != Disconnect(t) && exists i :: 0 <= i < |h| && Holds(h, i, t))
  {
    var es := h + [e];
    if i :| 0 <= i < |h| && Holds(es, i, t) {
      assert Holds(h, i, t) by {
        assert forall j :: i <= j < |h| ==> h[j] == es[j];
      }
      assert es[|h|] == e;
    }
    if e == Connect(t) {
      assert Holds(es, |h|, t);
    }
    if i :| 0 <= i < |h| && Holds(h, i, t) && !ConnectsAt(e, t.inner) && e != Disconnect(t) {
      assert Holds(es, i, t);
    }
  }

  /** Over every run: a device has exactly the tunnel that connected last, for as long as that has not disconnected. */
  lemma {:induction false} TunnelExact(es: seq<Event>, n: Address6, t: Tunnel)
    requires LegalRun(START, es)
    ensures Get(Run(START, es).devices, n).cstp == t <==> t.inner == n && exists i :: 0 <= i < |es| && Holds(es, i, t)
    decreases |es|
  {
    if es != [] {
      var h, e := es[..|es| - 1], es[|es| - 1];
      LastStep(es);
      TunnelExact(h, n, t);
      CstpStep(Run(START, h), e, n);
      HoldsLonger(h, e, t);
      assert h + [e] == es;
      assert n in Run(START, es).devices ==> DeviceOk(Run(START, es), n, Run(START, es).devices[n]);
    }
  }

  /** A tunnel that has disconnected is never chosen again, for any device and whatever happens later, unless it
      connects anew. */
  lemma DisconnectedNeverChosen(es: seq<Event>, t: Tunnel, more: seq<Event>, n: Address6)
    requires LegalRun(START, es + [Disconnect(t)] + more) && Connect(t) !in more
    ensures Choose(Get(Run(START, es + [Disconnect(t)] + more).devices, n)) != OverCstp(t)
  {
    var all := es + [Disconnect(t)] + more;
    TunnelExact(all, n, t);
    assert all[|es|] == Disconnect(t);
    forall i | 0 <= i < |all|
      ensures !Holds(all, i, t)
    {
      if i > |es| {
        assert all[i] == more[i - |es| - 1];
      }
    }
  }

  // Sessions

  /** The table holds what its history says. */
  lemma {:induction false} TableExact(es: seq<Event>, k: FourTuple)
    requires LegalRun(START, es)
    ensures k in Run(START, es).table <==> Tabled(es, k).Some?
    ensures k in Run(START, es).table ==> Tabled(es, k) == Some(Run(START, es).table[k])
    decreases |es|
  {
    if es != [] {
      LastStep(es);
      TableExact(es[..|es| - 1], k);
    }
  }

  /** What a step does to the session of a device. */
  lemma DtlsStep(y: System, e: Event, n: Address6)
    requires Ok(y)
    ensures var before := Get(y.devices, n).dtls;
            Get(Step(y, e).devices, n).dtls ==
              if ConnectsAt(e, n) then null
              else if e.Arrive? && e.session.key !in y.table && e.session.inner == n then e.session
              else if before != null && (e == Leave(before.key) || (e.Pass? && before in e.gone)) then null
              else before
  {
    assert n in y.devices ==> DeviceOk(y, n, y.devices[n]);
  }

  /** An event after which a session that served its device still does. */
  predicate Spares(h: seq<Event>, e: Event, s: Session) {
    && !ConnectsAt(e, s.inner) && !(e.Arrive? && Tabled(h, e.session.key).None? && e.session.inner == s.inner)
    && e != Leave(s.key) && !(e.Pass? && s in e.gone)
  }

  lemma StartsStill(h: seq<Event>, e: Event, j: nat)
    requires j <= |h|
    ensures (h + [e])[..j] == h[..j]
    ensures Starts(h + [e], j) <==> if j < |h| then Starts(h, j) else e.Arrive? && Tabled(h, e.session.key).None?
  {
    assert (h + [e])[..j] == h[..j];
    assert h[..|h|] == h;
  }

  lemma ServesStill(h: seq<Event>, e: Event, s: Session, i: nat)
    requires i <= |h|
    ensures Serves(h + [e], i, s) <==>
              if i < |h| then Serves(h, i, s) && Spares(h, e, s) else e == Arrive(s) && Tabled(h, s.key).None?
  {
    var es := h + [e];
    forall j | 0 <= j <= |h|
      ensures es[j] == (if j < |h| then h[j] else e)
      ensures Starts(es, j) <==> if j < |h| then Starts(h, j) else e.Arrive? && Tabled(h, e.session.key).None?
    {
      StartsStill(h, e, j);
    }
    hide Starts, Tabled;
    assert es[|h|] == e;
    if i < |h| {
      if Serves(es, i, s) {
        assert Serves(h, i, s) by {
          assert forall j :: i <= j < |h| ==> h[j] == es[j];
        }
      }
    } else {
      assert Starts(es, i) && e == Arrive(s) <==> e == Arrive(s) && Tabled(h, s.key).None?;
    }
  }

  lemma ServesLonger(h: seq<Event>, e: Event, s: Session)
    ensures (exists i :: 0 <= i <= |h| && Serves(h + [e], i, s)) <==>
              || (e == Arrive(s) && Tabled(h, s.key).None?)
              || (Spares(h, e, s) && exists i :: 0 <= i < |h| && Serves(h, i, s))
  {
    hide Serves, Spares, Tabled;
    forall i | 0 <= i <= |h|
      ensures Serves(h + [e], i, s) <==>
                if i < |h| then Serves(h, i, s) && Spares(h, e, s) else e == Arrive(s) && Tabled(h, s.key).None?
    {
      ServesStill(h, e, s, i);
    }
    assert (e == Arrive(s) && Tabled(h, s.key).None?) <==> Serves(h + [e], |h|, s);
    if i :| 0 <= i < |h| && Serves(h, i, s) {
      assert Serves(h + [e], i, s) <==> Spares(h, e, s);
    }
    if i :| 0 <= i < |h| && Serves(h + [e], i, s) {
      assert Serves(h, i, s);
    }
  }

  /** Over every run: a device has exactly the session that started last, for as long as the device has not
      connected anew since and the session has neither left nor been evicted. */
  lemma {:induction false} SessionExact(es: seq<Event>, n: Address6, s: Session)
    requires LegalRun(START, es)
    ensures Get(Run(START, es).devices, n).dtls == s <==> s.inner == n && exists i :: 0 <= i < |es| && Serves(es, i, s)
    decreases |es|
  {
    if es != [] {
      var h, e := es[..|es| - 1], es[|es| - 1];
      LastStep(es);
      SessionExact(h, n, s);
      DtlsStep(Run(START, h), e, n);
      if e.Arrive? {
        TableExact(h, e.session.key);
      }
      ServesLonger(h, e, s);
      assert h + [e] == es;
      assert n in Run(START, h).devices ==> DeviceOk(Run(START, h), n, Run(START, h).devices[n]);
      assert n in Run(START, es).devices ==> DeviceOk(Run(START, es), n, Run(START, es).devices[n]);
    }
  }

  /** A session that has left, or has been evicted, is never chosen again, for any device and whatever happens later. */
  lemma GoneNeverChosen(es: seq<Event>, e: Event, s: Session, more: seq<Event>, n: Address6)
    requires LegalRun(START, es + [e] + more) && Tabled(es, s.key) == Some(s)
    requires e == Leave(s.key) || (e.Pass? && s in e.gone)
    ensures Choose(Get(Run(START, es + [e] + more).devices, n)) != OverDtls(s)
  {
    RunConcat(START, es + [e], more);
    RunConcat(START, es, [e]);
    var y := Run(START, es);
    RunOk(START, es);
    TableExact(es, s.key);
    assert Run(y, [e]) == Step(y, e);
    StepOk(y, e);
    RunOk(Step(y, e), more);
    var z := Run(START, es + [e] + more);
    if n in z.devices {
      assert DeviceOk(z, n, z.devices[n]);
    }
  }

  /** The transport a device's packets leave over: its session if it has one, or else its tunnel. */
  lemma Chosen(d: Device)
    ensures d.dtls != null ==> Choose(d) == OverDtls(d.dtls)
    ensures d.dtls == null && d.cstp != null ==> Choose(d) == OverCstp(d.cstp)
    ensures d.dtls == null && d.cstp == null ==> Choose(d) == Nowhere
  {
  }
}
