/** What every run of the flow cache keeps. */
module FlowTheorems {
  import opened Wrappers
  import opened ProxyUdp
  import opened FlowSpec
  import opened FlowLists

  // Runs

  /** What can happen to the cache; the clock never goes back. */
  datatype Event = Recv(d: Datagram) | Send(addr: UdpAddr, sentAt: int) | Sweep(sweptAt: int) {
    function At(): int
    {
      match this
      case Recv(d) => d.at
      case Send(_, at) => at
      case Sweep(at) => at
    }

    /** When the clock is read for the last time. */
    function End(): int
    {
      if Recv? then d.later else At()
    }
  }

  datatype Effect = Got(delivered: Option<Delivered>) | Sent(target: UdpAddr) | Swept

  datatype Limits = Limits(timeout: int, max: nat)

  function Step(c: Cache, e: Event, l: Limits): (Cache, Effect)
    requires l.max > 0
  {
    match e
    case Recv(d) => var (c', r) := Receive(c, d, l.timeout, l.max); (c', Got(r))
    case Send(addr, at) => var (c', target) := Target(c, addr, at, l.timeout); (c', Sent(target))
    case Sweep(at) => (EvictIdle(c, at, l.timeout), Swept)
  }

  function Run(c: Cache, es: seq<Event>, l: Limits): (Cache, seq<Effect>)
    requires l.max > 0
    decreases |es|
  {
    if es == [] then (c, [])
    else
      var (c1, effect) := Step(c, es[0], l);
      var (c2, effects) := Run(c1, es[1..], l);
      (c2, [effect] + effects)
  }

  predicate Timed(es: seq<Event>, now: int) {
    es != [] ==> now <= es[0].At() <= es[0].End() && Timed(es[1..], es[0].End())
  }

  function EndOf(es: seq<Event>, now: int): int
  {
    if es == [] then now else es[|es| - 1].End()
  }

  // The invariant

  predicate Stands(s: seq<Flow>, key: AddrPort, announced: AddrPort) {
    Find(s, key).Some? && Find(s, key).value.announcedKey == announced
  }

  /** One flow for each kernel source, sorted by when it was last seen, no more of them than allowed; every
      announced key stands for a flow that is there and announces it. */
  ghost predicate Ok(c: Cache, now: int, max: nat) {
    && Ordered(c.list, now) && |c.list| <= max
    && forall a :: a in c.reverse ==> Stands(c.list, c.reverse[a], a)
  }

  lemma DropOk(c: Cache, f: Flow, now: int, max: nat)
    requires Ok(c, now, max) && Find(c.list, f.key) == Some(f)
    ensures Ok(Drop(c, f), now, max) && |Drop(c, f).list| < |c.list|
  {
    OrderedWithout(c.list, f.key, now);
    FindSize(c.list, f.key);
    forall a | a in Drop(c, f).reverse
      ensures Stands(Drop(c, f).list, c.reverse[a], a)
    {
      assert Stands(c.list, c.reverse[a], a);
      FindWithout(c.list, f.key, c.reverse[a]);
    }
  }

  /** Moving a flow to the front, possibly changed, where the announced keys agree with it already. */
  lemma TouchOk(c: Cache, f: Flow, was: int, now: int, max: nat)
    requires Ordered(c.list, was) && was <= now && |c.list| <= max && Find(c.list, f.key).Some?
    requires forall a :: a in c.reverse ==>
             if c.reverse[a] == f.key then a == f.announcedKey else Stands(c.list, c.reverse[a], a)
    ensures Ok(Touch(c, f, now), now, max)
  {
    PushOk(c, f.(seen := now), was, now, max);
    FindSize(c.list, f.key);
  }

  /** Putting a flow in front of the others. */
  lemma PushOk(c: Cache, f: Flow, was: int, now: int, max: nat)
    requires Ordered(c.list, was) && was <= now && f.seen == now
    requires forall a :: a in c.reverse ==>
             if c.reverse[a] == f.key then a == f.announcedKey else Stands(c.list, c.reverse[a], a)
    ensures var pushed := c.(list := [f] + Without(c.list, f.key));
            Ordered(pushed.list, now) && forall a :: a in c.reverse ==> Stands(pushed.list, c.reverse[a], a)
  {
    OrderedWithout(c.list, f.key, was);
    OrderedLater(Without(c.list, f.key), was, now);
    FindWithout(c.list, f.key, f.key);
    var pushed := [f] + Without(c.list, f.key);
    assert pushed[1..] == Without(c.list, f.key);
    forall a | a in c.reverse
      ensures Stands(pushed, c.reverse[a], a)
    {
      FindWithout(c.list, f.key, c.reverse[a]);
    }
  }

  lemma LookupOk(c: Cache, key: AddrPort, was: int, now: int, l: Limits)
    requires Ok(c, was, l.max) && was <= now
    ensures Ok(Lookup(c, key, now, l.timeout).0, now, l.max)
    ensures Lookup(c, key, now, l.timeout).1.None? ==> Find(Lookup(c, key, now, l.timeout).0.list, key).None?
  {
    OrderedLater(c.list, was, now);
    match Find(c.list, key)
    case None =>
    case Some(f) =>
      FindWithout(c.list, key, key);
      if Idle(f, now, l.timeout) {
        DropOk(c, f, now, l.max);
      } else {
        AgreesWith(c, f);
        TouchOk(c, f, was, now, l.max);
      }
  }

  lemma AgreesWith(c: Cache, f: Flow)
    requires Find(c.list, f.key) == Some(f) && forall a :: a in c.reverse ==> Stands(c.list, c.reverse[a], a)
    ensures forall a :: a in c.reverse ==>
            if c.reverse[a] == f.key then a == f.announcedKey else Stands(c.list, c.reverse[a], a)
  {
  }

  /** On overflow exactly one flow goes, and no flow was last seen before it. */
  lemma OverflowEvictsOldest(c: Cache, now: int, max: nat)
    requires Ok(c, now, max) && max > 0
    ensures Ok(Evict(c, max), now, max - 1)
    ensures |c.list| < max ==> Evict(c, max) == c
    ensures |c.list| == max ==>
              var oldest := c.list[max - 1];
              && Evict(c, max) == Drop(c, oldest) && Evict(c, max).list == c.list[..max - 1]
              && (forall f :: f in c.list ==> oldest.seen <= f.seen)
  {
    if |c.list| == max {
      RankLast(c.list, now);
      OrderedMeans(c.list, now);
      DropOk(c, c.list[max - 1], now, max);
    }
  }

  /** A new announcement of a source that has a flow keeps the flow and its place in the other lists: it is
      refreshed, with the kernel address it now comes from, and, if it announces another source than before, with
      that one; the key of the old one is forgotten unless another source has announced it since. */
  lemma RenewExact(c: Cache, key: AddrPort, kernel: UdpAddr, announced: UdpAddr, now: int, max: nat)
    requires max > 0 && AddrKey(announced).Some? && Find(c.list, key).Some?
    ensures var f, a, r := Find(c.list, key).value, AddrKey(announced).value,
            Remember(c, key, kernel, announced, now, max);
            && r.list != [] && r.list[1..] == Without(c.list, key)
            && r.list[0] == Flow(key, if f.announcedKey == a then f.announced else announced, a, kernel, now)
            && var stale := if f.announcedKey in c.reverse && c.reverse[f.announcedKey] == key then {f.announcedKey}
                  else {};
               r.reverse == if f.announcedKey == a then c.reverse else (c.reverse - stale)[a := key]
  {
  }

  /** The first announcement of a source puts a flow in front; if there is no room for it, the flow at the back
      goes, and the key that stood for it. */
  lemma RememberExact(c: Cache, key: AddrPort, kernel: UdpAddr, announced: UdpAddr, now: int, max: nat, was: int)
    requires Ok(c, was, max) && max > 0 && AddrKey(announced).Some? && Find(c.list, key).None?
    ensures var a, r := AddrKey(announced).value, Remember(c, key, kernel, announced, now, max);
            && r.list == [Flow(key, announced, a, kernel, now)] + (if |c.list| < max then c.list else c.list[..max - 1])
            && r.reverse == (if |c.list| < max then c.reverse
                             else c.reverse - KeysFor(c.reverse, c.list[max - 1].key))[a := key]
  {
    hide Ordered, KeysFor;
    OverflowEvictsOldest(c, was, max);
    hide Evict;
    if |c.list| == max {
      RankLast(c.list, was);
      AgreesWith(c, c.list[max - 1]);
      DropReverse(c, c.list[max - 1]);
    }
  }

  /** The announced keys that stand for a source. */
  function KeysFor(reverse: map<AddrPort, AddrPort>, key: AddrPort): set<AddrPort>
  {
    set a | a in reverse && reverse[a] == key
  }

  /** Dropping a flow forgets exactly the keys that stand for it. */
  lemma DropReverse(c: Cache, f: Flow)
    requires forall a :: a in c.reverse ==> c.reverse[a] == f.key ==> a == f.announcedKey
    ensures Drop(c, f).reverse == c.reverse - KeysFor(c.reverse, f.key)
  {
  }

  lemma RememberOk(c: Cache, key: AddrPort, kernel: UdpAddr, announced: UdpAddr, was: int, now: int, max: nat)
    requires Ok(c, was, max) && was <= now && max > 0
    ensures Ok(Remember(c, key, kernel, announced, now, max), now, max)
  {
    hide Ordered;
    match AddrKey(announced)
    case None => OrderedLater(c.list, was, now);
    case Some(announcedKey) =>
      match Find(c.list, key)
      case Some(f) =>
        AgreesWith(c, f);
        if f.announcedKey == announcedKey {
          TouchOk(c, f.(kernel := kernel), was, now, max);
        } else {
          TouchOk(Cache(c.list, Forget(c, f).reverse[announcedKey := f.key]),
              Flow(f.key, announced, announcedKey, kernel, now), was, now, max);
        }
      case None =>
        OverflowEvictsOldest(c, was, max);
        var e := Evict(c, max);
        EvictKeepsOut(c, key, was, max);
        WithoutAbsentFind(e.list, key);
        var f := Flow(key, announced, announcedKey, kernel, now);
        PushOk(e.(reverse := e.reverse[announcedKey := key]), f, was, now, max);
  }

  lemma EvictKeepsOut(c: Cache, key: AddrPort, now: int, max: nat)
    requires Ok(c, now, max) && max > 0 && Find(c.list, key).None?
    ensures Find(Evict(c, max).list, key).None?
  {
    OverflowEvictsOldest(c, now, max);
    if |c.list| == max {
      FindWithout(c.list, c.list[max - 1].key, key);
    }
  }

  // Sweeping

  function Fresh(s: seq<Flow>, now: int, timeout: int): seq<Flow>
  {
    if s == [] then []
    else if Idle(s[0], now, timeout) then Fresh(s[1..], now, timeout)
    else [s[0]] + Fresh(s[1..], now, timeout)
  }

  lemma {:induction false} FreshMembers(s: seq<Flow>, now: int, timeout: int)
    ensures forall f :: f in Fresh(s, now, timeout) <==> f in s && !Idle(f, now, timeout)
  {
    if s != [] {
      FreshMembers(s[1..], now, timeout);
    }
  }

  /** Where all are fresh, all stay. */
  lemma {:induction false} FreshAll(s: seq<Flow>, now: int, timeout: int)
    requires forall i :: 0 <= i < |s| ==> !Idle(s[i], now, timeout)
    ensures Fresh(s, now, timeout) == s
  {
    if s != [] {
      FreshAll(s[1..], now, timeout);
    }
  }

  /** Once one flow is idle, all behind it are. */
  lemma {:induction false} FreshSplit(s: seq<Flow>, was: int, now: int, timeout: int)
    requires Ordered(s, was) && s != []
    ensures var last := s[|s| - 1];
            Fresh(s, now, timeout) == if Idle(last, now, timeout) then Fresh(s[..|s| - 1], now, timeout) else s
  {
    var last := s[|s| - 1];
    OrderedMeans(s, was);
    if !Idle(last, now, timeout) {
      FreshAll(s, now, timeout);
    } else if |s| > 1 {
      FreshSplit(s[1..], s[0].seen, now, timeout);
      hide Ordered;
      assert s[1..][|s| - 2] == last;
      assert s[..|s| - 1][1..] == s[1..][..|s| - 2];
    }
  }

  predicate FreshKey(s: seq<Flow>, key: AddrPort, now: int, timeout: int) {
    Find(s, key).Some? && !Idle(Find(s, key).value, now, timeout)
  }

  function FreshReverse(c: Cache, now: int, timeout: int): map<AddrPort, AddrPort>
  {
    map a | a in c.reverse && FreshKey(c.list, c.reverse[a], now, timeout) :: c.reverse[a]
  }

  /** Stopping at the first fresh flow loses nothing: exactly the idle flows go, and with them exactly the announced
      keys that stood for them. */
  lemma {:induction false} EvictIdleExact(c: Cache, was: int, now: int, l: Limits)
    requires Ok(c, was, l.max) && was <= now
    ensures EvictIdle(c, now, l.timeout) == Cache(Fresh(c.list, now, l.timeout), FreshReverse(c, now, l.timeout))
    ensures Ok(EvictIdle(c, now, l.timeout), now, l.max)
    decreases |c.list|
  {
    if c.list == [] {
      OrderedLater(c.list, was, now);
      assert FreshReverse(c, now, l.timeout) == c.reverse by { NothingStands(c); }
    } else {
      FreshSplit(c.list, was, now, l.timeout);
      var f := c.list[|c.list| - 1];
      if Idle(f, now, l.timeout) {
        RankLast(c.list, was);
        DropOk(c, f, was, l.max);
        DropIdleReverse(c, f, now, l);
        hide Ok, Drop, Fresh, FreshReverse;
        EvictIdleExact(Drop(c, f), was, now, l);
      } else {
        AllFresh(c, now, l.timeout);
        OrderedLater(c.list, was, now);
      }
    }
  }

  lemma NothingStands(c: Cache)
    requires c.list == [] && forall a :: a in c.reverse ==> Stands(c.list, c.reverse[a], a)
    ensures c.reverse == map[]
  {
    assert forall key, a :: !Stands(c.list, key, a);
  }

  lemma DropIdleReverse(c: Cache, f: Flow, now: int, l: Limits)
    requires Find(c.list, f.key) == Some(f) && Idle(f, now, l.timeout)
    requires forall a :: a in c.reverse ==> Stands(c.list, c.reverse[a], a)
    ensures FreshReverse(Drop(c, f), now, l.timeout) == FreshReverse(c, now, l.timeout)
  {
    forall a | a in c.reverse
      ensures a in FreshReverse(Drop(c, f), now, l.timeout) <==> a in FreshReverse(c, now, l.timeout)
    {
      FindWithout(c.list, f.key, c.reverse[a]);
    }
  }

  lemma AllFresh(c: Cache, now: int, timeout: int)
    requires Fresh(c.list, now, timeout) == c.list && forall a :: a in c.reverse ==> Stands(c.list, c.reverse[a], a)
    ensures FreshReverse(c, now, timeout) == c.reverse
  {
    forall a | a in c.reverse
      ensures FreshKey(c.list, c.reverse[a], now, timeout)
    {
      assert Stands(c.list, c.reverse[a], a);
      FindMembers(c.list, c.reverse[a]);
      FreshMembers(c.list, now, timeout);
    }
  }

  // Every run

  lemma StepOk(c: Cache, e: Event, was: int, l: Limits)
    requires Ok(c, was, l.max) && was <= e.At() <= e.End() && l.max > 0
    ensures Ok(Step(c, e, l).0, e.End(), l.max)
  {
    hide Ok, Lookup, Remember, ParseUdpHeader;
    OkLater(c, was, e.End(), l.max);
    match e
    case Recv(d) =>
      if AddrKey(d.from).Some? {
        LookupOk(c, AddrKey(d.from).value, was, d.at, l);
        var c' := Lookup(c, AddrKey(d.from).value, d.at, l.timeout).0;
        if ParseUdpHeader(d.bytes).Announced? {
          RememberOk(c', AddrKey(d.from).value, d.from, ParseUdpHeader(d.bytes).src, d.at, d.later, l.max);
        }
        OkLater(c', d.at, d.later, l.max);
      }
    case Send(addr, at) =>
      if AddrKey(addr).Some? && AddrKey(addr).value in c.reverse {
        LookupOk(c, c.reverse[AddrKey(addr).value], was, at, l);
      }
    case Sweep(at) =>
      EvictIdleExact(c, was, at, l);
  }

  lemma OkLater(c: Cache, was: int, now: int, max: nat)
    requires Ok(c, was, max) && was <= now
    ensures Ok(c, now, max)
  {
    OrderedLater(c.list, was, now);
  }

  /** The invariant holds after every run from the empty cache. */
  lemma {:induction false} RunOk(c: Cache, es: seq<Event>, now: int, l: Limits)
    requires Ok(c, now, l.max) && Timed(es, now) && l.max > 0
    ensures Ok(Run(c, es, l).0, EndOf(es, now), l.max)
    decreases |es|
  {
    hide Ok, Step;
    if es != [] {
      StepOk(c, es[0], now, l);
      RunOk(Step(c, es[0], l).0, es[1..], es[0].End(), l);
      assert EndOf(es[1..], es[0].End()) == EndOf(es, now);
    }
  }

  lemma EveryRun(es: seq<Event>, now: int, l: Limits)
    requires Timed(es, now) && l.max > 0
    ensures Ok(Run(EMPTY, es, l).0, EndOf(es, now), l.max)
  {
    RunOk(EMPTY, es, now, l);
  }

  // Reading

  /** Datagrams, as events. */
  function Received(socket: seq<Arrival>): (es: seq<Event>)
    requires forall a :: a in socket ==> a.Incoming?
    ensures |es| == |socket| && forall i :: 0 <= i < |es| ==> es[i] == Recv(socket[i].datagram)
  {
    seq(|socket|, i requires 0 <= i < |socket| => Recv(socket[i].datagram))
  }

  /** A read is a run over the n datagrams that are not delivered, and then delivers the next one, fails if the
      socket does, or finds nothing more. */
  lemma {:induction false} ReadIsRun(c: Cache, socket: seq<Arrival>, l: Limits) returns (n: nat)
    requires l.max > 0
    ensures n <= |socket| && forall a :: a in socket[..n] ==> a.Incoming?
    ensures var (c', effects) := Run(c, Received(socket[..n]), l);
            && |effects| == n && (forall i :: 0 <= i < n ==> effects[i] == Got(None))
            && match Read(c, socket, l.timeout, l.max)
               case (c2, Waiting, rest) => n == |socket| && c2 == c' && rest == []
               case (c2, Failed, rest) => n < |socket| && socket[n].Failure? && c2 == c' && rest == socket[n + 1..]
               case (c2, Data(x), rest) =>
                 && n < |socket| && socket[n].Incoming? && rest == socket[n + 1..]
                 && Receive(c', socket[n].datagram, l.timeout, l.max) == (c2, Some(x))
    decreases |socket|
  {
    hide Receive;
    n := 0;
    if socket != [] && socket[0].Incoming? {
      var (c', delivered) := Receive(c, socket[0].datagram, l.timeout, l.max);
      if delivered == None {
        var m := ReadIsRun(c', socket[1..], l);
        n := m + 1;
        assert socket[..n][1..] == socket[1..][..m];
        assert Received(socket[..n])[1..] == Received(socket[1..][..m]);
        assert m < |socket[1..]| ==> socket[1..][m + 1..] == socket[n + 1..];
      }
    }
  }
}
