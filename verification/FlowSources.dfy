/** The flow cache seen from outside: what each source is told apart by, what its headers say, and what its datagrams
    are delivered under, in terms of the datagrams that came before. */
module FlowSources {
  import opened Wrappers
  import opened Bytes
  import opened ProxyUdp
  import opened FlowSpec
  import opened FlowLists
  import opened FlowTheorems

  // Sources

  /** Two addresses are one source: the same IP address, IPv4 in either form, and the same port of 16 bits. */
  predicate SameSource(a: UdpAddr, b: UdpAddr) {
    |a.ip| in {4, 16} && |b.ip| in {4, 16} && Unmapped(a.ip) == Unmapped(b.ip) && a.port % 65536 == b.port % 65536
  }

  /** Addresses have the same key exactly if they are one source. */
  lemma KeyExact(a: UdpAddr, b: UdpAddr)
    ensures AddrKey(a) == if |a.ip| in {4, 16} then Some(AddrPort(Unmapped(a.ip), a.port % 65536)) else None
    ensures AddrKey(a).Some? && AddrKey(a) == AddrKey(b) <==> SameSource(a, b)
  {
    UnmapIs(a.ip);
    UnmapIs(b.ip);
  }

  // Headers

  /** What the front of a datagram says, by the numbers of the PROXY protocol: twelve bytes of signature, version 2
      with LOCAL or PROXY, datagrams over IPv4 or IPv6, and the length of what follows. */
  function Said(b: seq<byte>): Header
  {
    if |b| < 16 || b[..12] != [13, 10, 13, 10, 0, 13, 10, 81, 85, 73, 84, 10] then NotProxy
    else
      var length := 16 + b[14] as int * 256 + b[15];
      if length > |b| then Malformed
      else if b[12] == 0x20 then Local(length)
      else if b[12] == 0x21 && b[13] == 0x12 && length >= 28 then
        Announced(UdpAddr(b[16..20], b[24] as int * 256 + b[25]), length)
      else if b[12] == 0x21 && b[13] == 0x22 && length >= 52 then
        Announced(UdpAddr(b[16..32], b[48] as int * 256 + b[49]), length)
      else Malformed
  }

  lemma SaidIs(b: seq<byte>)
    ensures ParseUdpHeader(b) == Said(b)
  {
  }

  /** The header that announces src, byte by byte: there is one if both addresses, unmapped, are IP addresses of one
      family. */
  lemma WrittenBytes(src: UdpAddr, dst: UdpAddr)
    ensures HeaderUdp(src, dst).Some? <==>
              |src.ip| in {4, 16} && |dst.ip| in {4, 16} && |Unmapped(src.ip)| == |Unmapped(dst.ip)|
    ensures HeaderUdp(src, dst).Some? ==>
              var s, d, p, q := Unmapped(src.ip), Unmapped(dst.ip), src.port % 65536, dst.port % 65536;
              HeaderUdp(src, dst).value ==
                [13, 10, 13, 10, 0, 13, 10, 81, 85, 73, 84, 10, 0x21, if |s| == 4 then 0x12 else 0x22, 0,
                 if |s| == 4 then 12 else 36] + s + d + [p / 256, p % 256, q / 256, q % 256]
  {
    UnmapIs(src.ip);
    UnmapIs(dst.ip);
  }

  // What came before

  /** The datagram announces a source. */
  predicate Announces(d: Datagram) {
    Said(d.bytes).Announced?
  }

  /** The first source that one of a's own datagrams in h announced. */
  function AnnouncedBy(h: seq<Event>, a: UdpAddr): Option<UdpAddr>
  {
    if h == [] then None
    else
      var e, before := h[|h| - 1], AnnouncedBy(h[..|h| - 1], a);
      if before.Some? then before
      else if e.Recv? && SameSource(e.d.from, a) && Announces(e.d) then Some(Said(e.d.bytes).src)
      else None
  }

  /** The kernel address of the last source in h whose own first announcement was of addr. */
  function RepliesTo(h: seq<Event>, addr: UdpAddr): Option<UdpAddr>
  {
    if h == [] then None
    else
      var e, before := h[|h| - 1], h[..|h| - 1];
      if e.Recv? && |e.d.from.ip| in {4, 16} && AnnouncedBy(before, e.d.from).None? && Announces(e.d)
         && SameSource(Said(e.d.bytes).src, addr)
      then Some(e.d.from)
      else RepliesTo(before, addr)
  }

  /** What a datagram is delivered as that no announcement came before: without its header, under the source its
      header announces or else its own; as it is if it has no header, or a malformed one; and not at all if it is
      nothing but a header. */
  function Unannounced(d: Datagram): Option<Delivered>
  {
    match Said(d.bytes)
    case Local(length) => if length == |d.bytes| then None else Some(Delivered(d.bytes[length..], d.from))
    case Announced(src, length) => if length == |d.bytes| then None else Some(Delivered(d.bytes[length..], src))
    case _ => Some(Delivered(d.bytes, d.from))
  }

  /** What happens on an event, in terms of what happened before: once one of its own datagrams announced a source,
      a source's datagrams are delivered whole under it; and a reply to an announced source goes to where its
      datagrams come from. */
  function Expected(h: seq<Event>, e: Event): Effect
  {
    match e
    case Recv(d) =>
      if |d.from.ip| !in {4, 16} then Got(Some(Delivered(d.bytes, d.from)))
      else if AnnouncedBy(h, d.from).Some? then Got(Some(Delivered(d.bytes, AnnouncedBy(h, d.from).value)))
      else Got(Unannounced(d))
    case Send(addr, _) => Sent(if RepliesTo(h, addr).Some? then RepliesTo(h, addr).value else addr)
    case Sweep(_) => Swept
  }

  lemma FindTouched(c: Cache, f: Flow, now: int, key: AddrPort)
    ensures Find(Touch(c, f, now).list, key) == if key == f.key then Some(f.(seen := now)) else Find(c.list, key)
  {
    FindWithout(c.list, f.key, key);
    var t := Touch(c, f, now).list;
    assert t[1..] == Without(c.list, f.key);
  }

  // Every run

  /** A datagram in h announced src. */
  predicate AnnouncedIn(e: Event, src: UdpAddr) {
    e.Recv? && Announces(e.d) && Said(e.d.bytes).src == src
  }

  /** The flow was made by a datagram in h: it has its source, and what it announced. */
  ghost predicate Made(f: Flow, h: seq<Event>) {
    && AddrKey(f.kernel) == Some(f.key) && AddrKey(f.announced) == Some(f.announcedKey)
    && exists j :: 0 <= j < |h| && AnnouncedIn(h[j], f.announced) && h[j].d.from == f.kernel
  }

  ghost predicate AllMade(c: Cache, h: seq<Event>) {
    forall f :: f in c.list ==> Made(f, h)
  }

  lemma MadeLater(f: Flow, h: seq<Event>, e: Event, now: int)
    requires Made(f, h)
    ensures Made(f, h + [e]) && Made(f.(seen := now), h + [e])
  {
    var j :| 0 <= j < |h| && AnnouncedIn(h[j], f.announced) && h[j].d.from == f.kernel;
    assert (h + [e])[j] == h[j];
  }

  /** Looking a flow up makes none. */
  lemma MadeLookup(c: Cache, key: AddrPort, now: int, timeout: int, h: seq<Event>, e: Event)
    requires AllMade(c, h)
    ensures AllMade(Lookup(c, key, now, timeout).0, h + [e])
    ensures Lookup(c, key, now, timeout).1.Some? ==>
              Lookup(c, key, now, timeout).1.value.key == key && Made(Lookup(c, key, now, timeout).1.value, h)
  {
    hide Made;
    WithoutMembers(c.list, key);
    FindMembers(c.list, key);
    forall f | f in c.list
      ensures Made(f, h + [e]) && Made(f.(seen := now), h + [e])
    {
      MadeLater(f, h, e, now);
    }
  }

  lemma {:induction false} MadeEvict(c: Cache, max: nat, h: seq<Event>)
    requires AllMade(c, h) && max > 0
    ensures AllMade(Evict(c, max), h)
    decreases |c.list|
  {
    hide Made;
    if |c.list| >= max {
      var f := c.list[|c.list| - 1];
      Shrinks(c.list, f);
      WithoutMembers(c.list, f.key);
      MadeEvict(Drop(c, f), max, h);
    }
  }

  lemma {:induction false} MadeSweep(c: Cache, now: int, timeout: int, h: seq<Event>)
    requires AllMade(c, h)
    ensures AllMade(EvictIdle(c, now, timeout), h)
    decreases |c.list|
  {
    hide Made;
    if c.list != [] && Idle(c.list[|c.list| - 1], now, timeout) {
      var f := c.list[|c.list| - 1];
      Shrinks(c.list, f);
      WithoutMembers(c.list, f.key);
      MadeSweep(Drop(c, f), now, timeout, h);
    }
  }

  /** The flow an announcement makes. */
  lemma MadeNew(d: Datagram, h: seq<Event>)
    requires AddrKey(d.from).Some? && Announces(d)
    ensures var src := Said(d.bytes).src;
            AddrKey(src).Some?
            && Made(Flow(AddrKey(d.from).value, src, AddrKey(src).value, d.from, d.later), h + [Recv(d)])
  {
    var h' := h + [Recv(d)];
    assert h'[|h|] == Recv(d) && AnnouncedIn(h'[|h|], Said(d.bytes).src);
  }

  /** The address an event shows was announced before, or in the very datagram, by whom it has to be. */
  ghost predicate Honest(h: seq<Event>, e: Event, effect: Effect) {
    match e
    case Recv(d) =>
      effect.Got? && (effect.delivered.Some? && effect.delivered.value.addr != d.from ==>
        exists j :: 0 <= j <= |h| && AnnouncedIn((h + [e])[j], effect.delivered.value.addr)
                    && SameSource((h + [e])[j].d.from, d.from))
    case Send(addr, _) =>
      effect.Sent? && (effect.target != addr ==>
        exists j, src :: 0 <= j < |h| && AnnouncedIn(h[j], src) && h[j].d.from == effect.target
            && SameSource(src, addr))
    case Sweep(_) => effect.Swept?
  }

  lemma HonestReceive(c: Cache, h: seq<Event>, d: Datagram, was: int, l: Limits)
    requires Ok(c, was, l.max) && AllMade(c, h) && was <= d.at <= d.later && l.max > 0
    ensures Honest(h, Recv(d), Step(c, Recv(d), l).1) && AllMade(Step(c, Recv(d), l).0, h + [Recv(d)])
  {
    hide Lookup, Remember, Made, ParseUdpHeader, Ok;
    var e := Recv(d);
    SaidIs(d.bytes);
    hide Said;
    assert (h + [e])[|h|] == e;
    KeyExact(d.from, d.from);
    if AddrKey(d.from).None? {
      forall f | f in c.list
        ensures Made(f, h + [e])
      {
        MadeLater(f, h, e, 0);
      }
    } else {
      var key := AddrKey(d.from).value;
      LookupOk(c, key, was, d.at, l);
      MadeLookup(c, key, d.at, l.timeout, h, e);
      var (c', f) := Lookup(c, key, d.at, l.timeout);
      if f.Some? {
        MadeBy(f.value, h, e);
      } else if Announces(d) {
        MadeNew(d, h);
        MadeRemember(c', key, d.from, Said(d.bytes).src, d.later, l.max, h + [e]);
      }
    }
  }

  lemma MadeRemember(c: Cache, key: AddrPort, kernel: UdpAddr, announced: UdpAddr, now: int, max: nat, h: seq<Event>)
    requires AllMade(c, h) && max > 0 && Find(c.list, key).None? && AddrKey(announced).Some?
    requires Made(Flow(key, announced, AddrKey(announced).value, kernel, now), h)
    ensures AllMade(Remember(c, key, kernel, announced, now, max), h)
  {
    hide Made;
    MadeEvict(c, max, h);
  }

  /** Who made a flow. */
  lemma MadeBy(f: Flow, h: seq<Event>, e: Event)
    requires Made(f, h)
    ensures exists j :: 0 <= j < |h| && AnnouncedIn((h + [e])[j], f.announced) && (h + [e])[j].d.from == f.kernel
    ensures forall a :: AddrKey(a) == Some(f.key) ==> SameSource(f.kernel, a)
    ensures forall a :: AddrKey(a) == Some(f.announcedKey) ==> SameSource(f.announced, a)
  {
    var j :| 0 <= j < |h| && AnnouncedIn(h[j], f.announced) && h[j].d.from == f.kernel;
    assert (h + [e])[j] == h[j];
    forall a
      ensures AddrKey(a) == Some(f.key) ==> SameSource(f.kernel, a)
      ensures AddrKey(a) == Some(f.announcedKey) ==> SameSource(f.announced, a)
    {
      KeyExact(f.kernel, a);
      KeyExact(f.announced, a);
    }
  }

  lemma HonestTarget(c: Cache, h: seq<Event>, addr: UdpAddr, at: int, l: Limits)
    requires AllMade(c, h) && l.max > 0 && forall a :: a in c.reverse ==> Stands(c.list, c.reverse[a], a)
    ensures Honest(h, Send(addr, at), Step(c, Send(addr, at), l).1)
    ensures AllMade(Step(c, Send(addr, at), l).0, h + [Send(addr, at)])
  {
    hide Made;
    var e := Send(addr, at);
    if AddrKey(addr).Some? && AddrKey(addr).value in c.reverse {
      var key := c.reverse[AddrKey(addr).value];
      assert Stands(c.list, key, AddrKey(addr).value);
      MadeLookup(c, key, at, l.timeout, h, e);
      var f := Find(c.list, key).value;
      FindMembers(c.list, key);
      MadeBy(f, h, e);
      var j :| 0 <= j < |h| && AnnouncedIn((h + [e])[j], f.announced) && (h + [e])[j].d.from == f.kernel;
      assert AnnouncedIn(h[j], f.announced);
    } else {
      forall f | f in c.list
        ensures Made(f, h + [e])
      {
        MadeLater(f, h, e, at);
      }
    }
  }

  lemma HonestStep(c: Cache, h: seq<Event>, e: Event, was: int, l: Limits)
    requires Ok(c, was, l.max) && AllMade(c, h) && was <= e.At() <= e.End() && l.max > 0
    ensures Honest(h, e, Step(c, e, l).1) && AllMade(Step(c, e, l).0, h + [e])
  {
    hide Made, Honest;
    match e
    case Recv(d) => HonestReceive(c, h, d, was, l);
    case Send(addr, at) => HonestTarget(c, h, addr, at, l);
    case Sweep(at) =>
      forall f | f in c.list
        ensures Made(f, h + [e])
      {
        MadeLater(f, h, e, at);
      }
      MadeSweep(c, at, l.timeout, h + [e]);
      NothingShown(h, at);
  }

  lemma NothingShown(h: seq<Event>, at: int)
    ensures Honest(h, Sweep(at), Swept)
  {
  }

  lemma {:induction false} HonestRun(c: Cache, h: seq<Event>, es: seq<Event>, now: int, l: Limits)
    requires Ok(c, now, l.max) && AllMade(c, h) && Timed(es, now) && l.max > 0
    ensures var r := Run(c, es, l).1;
            |r| == |es| && forall i :: 0 <= i < |es| ==> Honest(h + es[..i], es[i], r[i])
    decreases |es|
  {
    hide Step, Ok, AllMade, Honest;
    if es != [] {
      var e, tail := es[0], es[1..];
      HonestStep(c, h, e, now, l);
      StepOk(c, e, now, l);
      HonestRun(Step(c, e, l).0, h + [e], tail, e.End(), l);
      var r := Run(c, es, l).1;
      forall i | 0 <= i < |es|
        ensures Honest(h + es[..i], es[i], r[i])
      {
        if i == 0 {
          assert h + es[..0] == h;
        } else {
          assert h + es[..i] == h + [e] + tail[..i - 1];
        }
      }
    }
  }

  /** Provenance, over every run of any length, with evictions and idle flows: a datagram is delivered under its own
      address, or under one that a datagram of the same address and port announced, then or before; and a reply goes
      to the address it names, or to the address of a datagram that announced that one. */
  lemma EveryRunHonest(es: seq<Event>, now: int, l: Limits)
    requires Timed(es, now) && l.max > 0
    ensures var r := Run(EMPTY, es, l).1;
            |r| == |es| && forall i :: 0 <= i < |es| ==> Honest(es[..i], es[i], r[i])
  {
    HonestRun(EMPTY, [], es, now, l);
    forall i | 0 <= i < |es|
      ensures [] + es[..i] == es[..i]
    {
    }
  }

  /** A pause longer than the timeout makes the cache forget: the next datagram is taken as the first of its source,
      and the next reply goes where it says. */
  lemma PauseForgets(es: seq<Event>, now: int, l: Limits, e: Event)
    requires Timed(es, now) && l.max > 0 && e.At() - EndOf(es, now) > l.timeout && EndOf(es, now) <= e.At()
    ensures var c := Run(EMPTY, es, l).0; Step(c, e, l).1 == Expected([], e)
  {
    var c := Run(EMPTY, es, l).0;
    RunOk(EMPTY, es, now, l);
    OrderedMeans(c.list, EndOf(es, now));
    match e
    case Recv(d) =>
      SaidIs(d.bytes);
      if AddrKey(d.from).Some? {
        FindMembers(c.list, AddrKey(d.from).value);
      }
    case Send(addr, at) =>
      if AddrKey(addr).Some? && AddrKey(addr).value in c.reverse {
        FindMembers(c.list, c.reverse[AddrKey(addr).value]);
      }
    case Sweep(_) =>
  }
}
