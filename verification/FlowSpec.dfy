/** The PROXY v2 flow cache as a value: what internal/proxyproto/udp_listener.go keeps and answers. */
module FlowSpec {
  import opened Wrappers
  import opened Bytes
  import opened ProxyUdp

  /** One cached announcement: the source the kernel sees, and the one announced for it. */
  datatype Flow = Flow(key: AddrPort, announced: UdpAddr, announcedKey: AddrPort, kernel: UdpAddr, seen: int)

  /** The flows, most recently used first, and the kernel key each announced key stands for. */
  datatype Cache = Cache(list: seq<Flow>, reverse: map<AddrPort, AddrPort>)

  const EMPTY := Cache([], map[])

  // Lists of flows

  function Find(s: seq<Flow>, key: AddrPort): (r: Option<Flow>)
    ensures r.Some? ==> r.value.key == key
  {
    if s == [] then None else if s[0].key == key then Some(s[0]) else Find(s[1..], key)
  }

  function Without(s: seq<Flow>, key: AddrPort): (r: seq<Flow>)
    ensures |r| <= |s|
  {
    if s == [] then [] else if s[0].key == key then Without(s[1..], key) else [s[0]] + Without(s[1..], key)
  }

  ghost predicate Distinct(s: seq<Flow>) {
    forall i, j :: 0 <= i < j < |s| ==> s[i].key != s[j].key
  }

  lemma {:induction false} WithoutMembers(s: seq<Flow>, key: AddrPort)
    ensures forall f :: f in Without(s, key) <==> f in s && f.key != key
  {
    if s != [] {
      WithoutMembers(s[1..], key);
    }
  }

  lemma {:induction false} FindMembers(s: seq<Flow>, key: AddrPort)
    ensures Find(s, key).None? ==> forall f :: f in s ==> f.key != key
    ensures Find(s, key).Some? ==> Find(s, key).value in s
  {
    if s != [] && s[0].key != key {
      FindMembers(s[1..], key);
    }
  }

  lemma {:induction false} WithoutAbsent(s: seq<Flow>, key: AddrPort)
    requires forall i :: 0 <= i < |s| ==> s[i].key != key
    ensures Without(s, key) == s
  {
    if s != [] {
      WithoutAbsent(s[1..], key);
    }
  }

  /** Where keys are distinct, removing a key is removing one place. */
  lemma {:induction false} WithoutAt(s: seq<Flow>, i: nat)
    requires Distinct(s) && i < |s|
    ensures Without(s, s[i].key) == s[..i] + s[i + 1..]
    ensures Find(s, s[i].key) == Some(s[i])
  {
    if i == 0 {
      WithoutAbsent(s[1..], s[0].key);
    } else {
      WithoutAt(s[1..], i - 1);
      assert s[..i] + s[i + 1..] == [s[0]] + (s[1..][..i - 1] + s[1..][i..]);
    }
  }

  // Operations

  predicate Idle(f: Flow, now: int, timeout: int) {
    now - f.seen > timeout
  }

  /** The cache without the announced key of f, if it stands for f. */
  function Forget(c: Cache, f: Flow): Cache
  {
    if f.announcedKey in c.reverse && c.reverse[f.announcedKey] == f.key then
      c.(reverse := c.reverse - {f.announcedKey})
    else c
  }

  function Drop(c: Cache, f: Flow): Cache
  {
    Forget(c, f).(list := Without(c.list, f.key))
  }

  function Touch(c: Cache, f: Flow, now: int): Cache
  {
    c.(list := [f.(seen := now)] + Without(c.list, f.key))
  }

  /** A use of a flow: it is refreshed, or dropped if it has been idle too long. */
  function Use(c: Cache, f: Flow, now: int, timeout: int): (Cache, Option<Flow>)
  {
    if Idle(f, now, timeout) then (Drop(c, f), None) else (Touch(c, f, now), Some(f))
  }

  /** The cached flow of a kernel source. */
  function Lookup(c: Cache, key: AddrPort, now: int, timeout: int): (Cache, Option<Flow>)
  {
    match Find(c.list, key)
    case None => (c, None)
    case Some(f) => Use(c, f, now, timeout)
  }

  /** The cached flow an announced source stands for. */
  function ReverseLookup(c: Cache, announcedKey: AddrPort, now: int, timeout: int): (Cache, Option<Flow>)
  {
    if announcedKey !in c.reverse then (c, None)
    else Lookup(c, c.reverse[announcedKey], now, timeout)
  }

  /** The cached flow of an address a reply goes to. */
  function Answer(c: Cache, addr: UdpAddr, now: int, timeout: int): (Cache, Option<Flow>)
  {
    match AddrKey(addr)
    case None => (c, None)
    case Some(key) => ReverseLookup(c, key, now, timeout)
  }

  /** Least recently used flows dropped until fewer than max are left. */
  function Evict(c: Cache, max: nat): (r: Cache)
    requires max > 0
    ensures |r.list| < max && |r.list| <= |c.list|
    decreases |c.list|
  {
    if |c.list| < max then c
    else
      var f := c.list[|c.list| - 1];
      assert f in c.list;
      Shrinks(c.list, f);
      Evict(Drop(c, f), max)
  }

  lemma EvictStep(c: Cache, max: nat)
    requires max > 0
    ensures Evict(c, max) == if |c.list| < max then c else Evict(Drop(c, c.list[|c.list| - 1]), max)
  {
  }

  lemma {:induction false} Shrinks(s: seq<Flow>, f: Flow)
    requires f in s
    ensures |Without(s, f.key)| < |s|
  {
    if s[0].key != f.key {
      Shrinks(s[1..], f);
    }
  }

  /** A renewed announcement for a flow. */
  function Renew(c: Cache, f: Flow, kernel: UdpAddr, announced: UdpAddr, announcedKey: AddrPort, now: int): Cache
  {
    if f.announcedKey == announcedKey then Touch(c, f.(kernel := kernel), now)
    else Touch(Cache(c.list, Forget(c, f).reverse[announcedKey := f.key]),
        Flow(f.key, announced, announcedKey, kernel, now), now)
  }

  /** The announcement of a source for a kernel source. */
  function Remember(c: Cache, key: AddrPort, kernel: UdpAddr, announced: UdpAddr, now: int, max: nat): (r: Cache)
    requires max > 0
  {
    match AddrKey(announced)
    case None => c
    case Some(announcedKey) =>
      match Find(c.list, key)
      case Some(f) => Renew(c, f, kernel, announced, announcedKey, now)
      case None =>
        var e := Evict(c, max);
        Cache([Flow(key, announced, announcedKey, kernel, now)] + e.list, e.reverse[announcedKey := key])
  }

  /** Idle flows dropped from the back, up to the first fresh one. */
  function EvictIdle(c: Cache, now: int, timeout: int): Cache
    decreases |c.list|
  {
    if c.list == [] || !Idle(c.list[|c.list| - 1], now, timeout) then c
    else
      var f := c.list[|c.list| - 1];
      assert f in c.list;
      Shrinks(c.list, f);
      EvictIdle(Drop(c, f), now, timeout)
  }

  // Datagrams

  /** A datagram, with what the clock says when its source is looked up, and when what it announces is remembered. */
  datatype Datagram = Datagram(bytes: seq<byte>, from: UdpAddr, at: int, later: int)

  /** What the socket has to offer. */
  datatype Arrival = Incoming(datagram: Datagram) | Failure

  /** What the reader gets: payload bytes and the address they are said to come from. */
  datatype Delivered = Delivered(bytes: seq<byte>, addr: UdpAddr)

  /** How a read ends; Waiting is a socket that has nothing more for now. */
  datatype Outcome = Data(delivered: Delivered) | Failed | Waiting

  /** One datagram: a cached flow delivers it under its announced source; otherwise a header in front of it is taken
      off, and a source announced there is remembered. A datagram that is nothing but a header is not delivered. */
  function Receive(c: Cache, d: Datagram, timeout: int, max: nat): (Cache, Option<Delivered>)
    requires max > 0
  {
    match AddrKey(d.from)
    case None => (c, Some(Delivered(d.bytes, d.from)))
    case Some(key) =>
      var (c', f) := Lookup(c, key, d.at, timeout);
      if f.Some? then (c', Some(Delivered(d.bytes, f.value.announced)))
      else
        var h := ParseUdpHeader(d.bytes);
        (if h.Announced? then Remember(c', key, d.from, h.src, d.later, max) else c', Opened(d, h))
  }

  /** What is delivered of a datagram that does not belong to a cached flow. */
  function Opened(d: Datagram, h: Header): Option<Delivered>
    requires h.Local? || h.Announced? ==> h.length <= |d.bytes|
  {
    match h
    case Local(length) => if length == |d.bytes| then None else Some(Delivered(d.bytes[length..], d.from))
    case Announced(src, length) => if length == |d.bytes| then None else Some(Delivered(d.bytes[length..], src))
    case _ => Some(Delivered(d.bytes, d.from))
  }

  /** Reading: datagrams are received until one is delivered, the socket fails, or it has no more. */
  function Read(c: Cache, socket: seq<Arrival>, timeout: int, max: nat): (Cache, Outcome, seq<Arrival>)
    requires max > 0
    decreases |socket|
  {
    if socket == [] then (c, Waiting, [])
    else if socket[0].Failure? then (c, Failed, socket[1..])
    else
      var (c', delivered) := Receive(c, socket[0].datagram, timeout, max);
      if delivered.Some? then (c', Data(delivered.value), socket[1..]) else Read(c', socket[1..], timeout, max)
  }

  /** Where a reply goes: to the kernel address behind a cached announced address, or to the address itself. */
  function Target(c: Cache, addr: UdpAddr, now: int, timeout: int): (Cache, UdpAddr)
  {
    var (c', f) := Answer(c, addr, now, timeout);
    (c', if f.Some? then f.value.kernel else addr)
  }
}
