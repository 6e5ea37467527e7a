/** The flow cache of the PROXY v2 UDP listener: two maps and a list over the same entries
    (internal/proxyproto/udp_listener.go). */
module FlowCache {
  import opened Wrappers
  import opened ProxyUdp
  import opened FlowSpec

  class FlowEntry {
    const key: AddrPort
    var realAddr: UdpAddr
    var realAddrKey: AddrPort
    var kernelAddr: UdpAddr
    var lastSeen: int

    constructor (key: AddrPort, announced: UdpAddr, announcedKey: AddrPort, kernel: UdpAddr, now: int)
      ensures View() == Flow(key, announced, announcedKey, kernel, now)
    {
      this.key, realAddr, realAddrKey, kernelAddr, lastSeen := key, announced, announcedKey, kernel, now;
    }

    function View(): Flow
      reads this
    {
      Flow(key, realAddr, realAddrKey, kernelAddr, lastSeen)
    }
  }

  // Lists of entries

  ghost predicate DistinctKeys(s: seq<FlowEntry>) {
    forall i, j :: 0 <= i < j < |s| ==> s[i].key != s[j].key
  }

  ghost function Views(s: seq<FlowEntry>): (r: seq<Flow>)
    reads s
    ensures |r| == |s| && forall i :: 0 <= i < |s| ==> r[i] == s[i].View()
  {
    seq(|s|, i requires 0 <= i < |s| reads s => s[i].View())
  }

  function At(s: seq<FlowEntry>, e: FlowEntry): (i: nat)
    requires e in s
    ensures i < |s| && s[i] == e
  {
    if s[0] == e then 0 else 1 + At(s[1..], e)
  }

  function Removed(s: seq<FlowEntry>, i: nat): seq<FlowEntry>
    requires i < |s|
  {
    s[..i] + s[i + 1..]
  }

  lemma RemovedKeys(s: seq<FlowEntry>, i: nat)
    requires DistinctKeys(s) && i < |s|
    ensures DistinctKeys(Removed(s, i)) && s[i] !in Removed(s, i)
    ensures forall e :: e in Removed(s, i) <==> e in s && e != s[i]
  {
    var r := Removed(s, i);
    forall e | e in s && e != s[i]
      ensures e in r
    {
      var j :| 0 <= j < |s| && s[j] == e;
      assert r[if j < i then j else j - 1] == e;
    }
  }

  /** What the list says of an entry, as flows. */
  lemma EntryViews(s: seq<FlowEntry>, flows: map<AddrPort, FlowEntry>, i: nat)
    requires Forward(s, flows) && i < |s|
    ensures Find(Views(s), s[i].key) == Some(s[i].View())
    ensures Without(Views(s), s[i].key) == Views(Removed(s, i))
  {
    WithoutAt(Views(s), i);
    assert Views(Removed(s, i)) == Views(s)[..i] + Views(s)[i + 1..];
  }

  lemma {:induction false} NoEntry(s: seq<FlowEntry>, key: AddrPort)
    requires forall e :: e in s ==> e.key != key
    ensures Find(Views(s), key).None? && Without(Views(s), key) == Views(s)
  {
    WithoutAbsent(Views(s), key);
    FindMembers(Views(s), key);
  }

  // Maps to entries

  ghost function Keys(m: map<AddrPort, FlowEntry>): map<AddrPort, AddrPort>
  {
    map k | k in m :: m[k].key
  }

  lemma KeysMinus(m: map<AddrPort, FlowEntry>, k: AddrPort)
    ensures Keys(m - {k}) == Keys(m) - {k}
  {
  }

  lemma KeysPut(m: map<AddrPort, FlowEntry>, k: AddrPort, e: FlowEntry)
    ensures Keys(m[k := e]) == Keys(m)[k := e.key]
  {
  }

  lemma KeysAt(m: map<AddrPort, FlowEntry>, k: AddrPort)
    ensures k in Keys(m) <==> k in m
    ensures k in m ==> Keys(m)[k] == m[k].key
  {
  }

  /** List and forward map hold the same entries, one for each key. */
  ghost predicate Forward(lru: seq<FlowEntry>, flows: map<AddrPort, FlowEntry>) {
    && DistinctKeys(lru)
    && (forall e :: e in lru ==> e.key in flows && flows[e.key] == e)
    && (forall k :: k in flows ==> flows[k] in lru && flows[k].key == k)
  }

  /** Each reverse key points at an entry that announces it. */
  ghost predicate Reverse(lru: seq<FlowEntry>, reverse: map<AddrPort, FlowEntry>)
    reads lru`realAddrKey
  {
    forall k :: k in reverse ==> reverse[k] in lru && reverse[k].realAddrKey == k
  }

  function ReverseWithout(reverse: map<AddrPort, FlowEntry>, k: AddrPort, e: FlowEntry): map<AddrPort, FlowEntry>
  {
    if k in reverse && reverse[k] == e then reverse - {k} else reverse
  }

  lemma ForwardRemoved(lru: seq<FlowEntry>, flows: map<AddrPort, FlowEntry>, i: nat)
    requires Forward(lru, flows) && i < |lru|
    ensures Forward(Removed(lru, i), flows - {lru[i].key})
    ensures |Removed(lru, i)| == |lru| - 1 && lru[i] !in Removed(lru, i)
    ensures forall e :: e in Removed(lru, i) ==> e in lru
  {
    RemovedKeys(lru, i);
    hide Removed, DistinctKeys;
  }

  lemma ReverseRemoved(lru: seq<FlowEntry>, flows: map<AddrPort, FlowEntry>, reverse: map<AddrPort, FlowEntry>, i: nat)
    requires Forward(lru, flows) && Reverse(lru, reverse) && i < |lru|
    ensures Reverse(Removed(lru, i), ReverseWithout(reverse, lru[i].realAddrKey, lru[i]))
  {
    RemovedKeys(lru, i);
    hide Removed, DistinctKeys;
  }

  /** Forgetting a reverse key, seen through Keys. */
  lemma KeysWithout(lru: seq<FlowEntry>, flows: map<AddrPort, FlowEntry>, reverse: map<AddrPort, FlowEntry>,
      k: AddrPort, e: FlowEntry)
    requires Forward(lru, flows) && Reverse(lru, reverse) && e in lru
    ensures Keys(ReverseWithout(reverse, k, e)) ==
              if k in Keys(reverse) && Keys(reverse)[k] == e.key then Keys(reverse) - {k} else Keys(reverse)
  {
    hide DistinctKeys;
    KeysMinus(reverse, k);
  }

  /** The two hold equally many. */
  lemma {:induction false} ForwardSize(lru: seq<FlowEntry>, flows: map<AddrPort, FlowEntry>)
    requires Forward(lru, flows)
    ensures |flows| == |lru|
  {
    if lru == [] {
      assert flows == map[];
    } else {
      ForwardRemoved(lru, flows, 0);
      ForwardSize(lru[1..], flows - {lru[0].key});
      assert (flows - {lru[0].key}).Keys == flows.Keys - {lru[0].key};
    }
  }

  lemma ForwardMoved(lru: seq<FlowEntry>, flows: map<AddrPort, FlowEntry>, i: nat)
    requires Forward(lru, flows) && i < |lru|
    ensures Forward([lru[i]] + Removed(lru, i), flows) && lru[i] !in Removed(lru, i)
    ensures forall e :: e in [lru[i]] + Removed(lru, i) <==> e in lru
  {
    RemovedKeys(lru, i);
    var moved := [lru[i]] + Removed(lru, i);
    assert forall e :: e in Removed(lru, i) ==> e.key != lru[i].key;
    assert forall j :: 0 < j < |moved| ==> moved[j] == Removed(lru, i)[j - 1];
    assert DistinctKeys(moved);
  }

  lemma ForwardPushed(lru: seq<FlowEntry>, flows: map<AddrPort, FlowEntry>, e: FlowEntry)
    requires Forward(lru, flows) && e.key !in flows
    ensures Forward([e] + lru, flows[e.key := e]) && e !in lru
  {
    var pushed := [e] + lru;
    assert forall j :: 0 < j < |pushed| ==> pushed[j] == lru[j - 1] && pushed[j] in lru;
  }

  lemma ViewsPushed(lru: seq<FlowEntry>, e: FlowEntry)
    ensures Views([e] + lru) == [e.View()] + Views(lru)
  {
  }

  lemma ReversePushed(lru: seq<FlowEntry>, reverse: map<AddrPort, FlowEntry>, e: FlowEntry)
    requires Reverse(lru, reverse)
    ensures Reverse([e] + lru, reverse[e.realAddrKey := e])
  {
  }

  class UDPListener {
    const idleTimeout: int
    const maxFlows: nat
    var flows: map<AddrPort, FlowEntry>
    var reverse: map<AddrPort, FlowEntry>
    var lru: seq<FlowEntry> // most recently used first

    ghost predicate Valid()
      reads this, lru
    {
      maxFlows > 0 && Forward(lru, flows) && Reverse(lru, reverse)
    }

    ghost function Contents(): Cache
      reads this, lru
    {
      Cache(Views(lru), Keys(reverse))
    }

    constructor (idleTimeout: int, maxFlows: nat)
      requires maxFlows > 0
      ensures Valid() && Contents() == EMPTY && this.idleTimeout == idleTimeout && this.maxFlows == maxFlows
    {
      this.idleTimeout, this.maxFlows := idleTimeout, maxFlows;
      flows, reverse, lru := map[], map[], [];
    }

    /** Drops an entry from the list and both maps. */
    method RemoveEntry(e: FlowEntry)
      requires Valid() && e in lru
      modifies this
      ensures Valid() && Contents() == Drop(old(Contents()), e.View())
      ensures |lru| < old(|lru|) && e !in lru && forall x :: x in lru ==> x in old(lru)
    {
      hide Without, Removed, DistinctKeys, Views, At, Keys, Forward, Reverse;
      var i := At(lru, e);
      KeysWithout(lru, flows, reverse, e.realAddrKey, e);
      EntryViews(lru, flows, i);
      ForwardRemoved(lru, flows, i);
      ReverseRemoved(lru, flows, reverse, i);
      lru := Removed(lru, i);
      flows := flows - {e.key};
      if e.realAddrKey in reverse && reverse[e.realAddrKey] == e {
        reverse := reverse - {e.realAddrKey};
      }
    }
  
    /** Marks an entry as used. */
    method Refresh(e: FlowEntry, now: int)
      requires Valid() && e in lru
      modifies this`lru, e`lastSeen
      ensures Valid() && Contents() == Touch(old(Contents()), old(e.View()), now)
      ensures forall x :: x in lru <==> x in old(lru)
    {
      hide Without, Removed, DistinctKeys, At, Keys, Forward;
      var i := At(lru, e);
      EntryViews(lru, flows, i);
      ForwardMoved(lru, flows, i);
      ghost var rest := Views(Removed(lru, i));
      e.lastSeen := now;
      lru := [e] + Removed(lru, i);
      assert Views(lru) == [e.View()] + rest;
    }

    /** The announced address of a kernel source; one that has been idle too long is forgotten instead. */
    method Lookup(key: AddrPort, now: int) returns (r: Option<UdpAddr>)
      requires Valid()
      modifies this, lru
      ensures Valid()
      ensures var (c, f) := FlowSpec.Lookup(old(Contents()), key, now, idleTimeout);
              Contents() == c && r == if f.Some? then Some(f.value.announced) else None
      ensures forall x :: x in lru ==> x in old(lru)
    {
      hide Without, Removed, DistinctKeys, At, Keys, Views;
      if key !in flows {
        NoEntry(lru, key);
        return None;
      }
      var e := flows[key];
      ghost var i := At(lru, e);
      EntryViews(lru, flows, i);
      hide Forward, Reverse;
      if now - e.lastSeen > idleTimeout {
        RemoveEntry(e);
        return None;
      }
      r := Some(e.realAddr);
      Refresh(e, now);
    }
  
    /** The kernel address an announced address stands for; a flow that has been idle too long is forgotten instead. */
    method ReverseLookup(addr: UdpAddr, now: int) returns (r: Option<UdpAddr>)
      requires Valid()
      modifies this, lru
      ensures Valid()
      ensures var (c, f) := Answer(old(Contents()), addr, now, idleTimeout);
              Contents() == c && r == if f.Some? then Some(f.value.kernel) else None
    {
      hide Without, Removed, DistinctKeys, At, Keys, Views;
      var key := AddrKey(addr);
      if key == None {
        return None;
      }
      KeysAt(reverse, key.value);
      if key.value !in reverse {
        return None;
      }
      var e := reverse[key.value];
      EntryViews(lru, flows, At(lru, e));
      hide Forward;
      if now - e.lastSeen > idleTimeout {
        RemoveEntry(e);
        return None;
      }
      r := Some(e.kernelAddr);
      Refresh(e, now);
    }

    /** What the next round of making room drops. */
    lemma MakeRoomStep()
      requires Valid()
      ensures Evict(Contents(), maxFlows) ==
              if |lru| < maxFlows then Contents() else Evict(Drop(Contents(), lru[|lru| - 1].View()), maxFlows)
    {
      EvictStep(Contents(), maxFlows);
    }

    /** Drops least recently used entries until there is room for one more. */
    method MakeRoom()
      requires Valid()
      modifies this
      ensures Valid() && Contents() == Evict(old(Contents()), maxFlows)
      ensures forall x :: x in lru ==> x in old(lru)
      ensures forall k :: k in flows ==> k in old(flows)
    {
      hide Drop, Keys, Views, Removed, At, DistinctKeys, Evict, Contents, Reverse;
      ForwardSize(lru, flows);
      while |flows| >= maxFlows
        invariant Valid() && |flows| == |lru|
        invariant Evict(Contents(), maxFlows) == Evict(old(Contents()), maxFlows)
        invariant forall x :: x in lru ==> x in old(lru)
        invariant forall k :: k in flows ==> k in old(flows)
        decreases |lru|
      {
        MakeRoomStep();
        RemoveEntry(lru[|lru| - 1]);
        ForwardSize(lru, flows);
      }
      MakeRoomStep();
    }

    /** Drops idle entries from the back, up to the first fresh one. */
    method EvictIdle(now: int)
      requires Valid()
      modifies this
      ensures Valid() && Contents() == FlowSpec.EvictIdle(old(Contents()), now, idleTimeout)
    {
      hide Drop, Keys, Removed, At, DistinctKeys, Forward, Reverse;
      while lru != []
        invariant Valid()
        invariant FlowSpec.EvictIdle(Contents(), now, idleTimeout) ==
                  FlowSpec.EvictIdle(old(Contents()), now, idleTimeout)
        decreases |lru|
      {
        var back := lru[|lru| - 1];
        if now - back.lastSeen <= idleTimeout {
          return;
        }
        RemoveEntry(back);
      }
    }
  
    /** Announces another source for an entry; what was announced before is forgotten, if it still stands for this
        entry. */
    method Reannounce(e: FlowEntry, announced: UdpAddr, announcedKey: AddrPort)
      requires Valid() && e in lru
      modifies this`reverse, e`realAddr, e`realAddrKey
      ensures Valid() && e.realAddr == announced && e.realAddrKey == announcedKey
      ensures Keys(reverse) == Forget(old(Contents()), old(e.View())).reverse[announcedKey := e.key]
    {
      hide Removed, DistinctKeys, At, Keys, Views;
      KeysWithout(lru, flows, reverse, e.realAddrKey, e);
      if e.realAddrKey in reverse && reverse[e.realAddrKey] == e {
        reverse := reverse - {e.realAddrKey};
      }
      KeysPut(reverse, announcedKey, e);
      e.realAddr := announced;
      e.realAddrKey := announcedKey;
      reverse := reverse[announcedKey := e];
    }

    /** Caches the announcement of a source for a kernel source, making room for it if it is new. */
    method Remember(kernelKey: AddrPort, kernelAddr: UdpAddr, announced: UdpAddr, now: int)
      requires Valid()
      modifies this, lru
      ensures Valid()
      ensures Contents() == FlowSpec.Remember(old(Contents()), kernelKey, kernelAddr, announced, now, maxFlows)
      ensures forall e :: e in lru && e !in old(lru) ==> fresh(e)
    {
      hide Removed, DistinctKeys, At, Keys, Views, Without, Evict, Forget;
      var announcedKey := AddrKey(announced);
      if announcedKey == None {
        return;
      }
      if kernelKey in flows {
        var e := flows[kernelKey];
        EntryViews(lru, flows, At(lru, e));
        hide Forward, Reverse;
        UpdateEntry(e, kernelAddr, announced, announcedKey.value, now);
        return;
      }
      NoEntry(lru, kernelKey);
      MakeRoom();
      Insert(kernelKey, kernelAddr, announced, announcedKey.value, now);
    }

    /** The announcement for a kernel source that has an entry. */
    method UpdateEntry(e: FlowEntry, kernelAddr: UdpAddr, announced: UdpAddr, announcedKey: AddrPort, now: int)
      requires Valid() && e in lru
      modifies this, e
      ensures Valid()
      ensures Contents() == Renew(old(Contents()), old(e.View()), kernelAddr, announced, announcedKey, now)
      ensures forall x :: x in lru ==> x in old(lru)
    {
      hide Removed, DistinctKeys, At, Keys, Without, Forget, Forward, Reverse, Views;
      ghost var i := At(lru, e);
      EntryViews(lru, flows, i);
      ForwardRemoved(lru, flows, i);
      ghost var rest := Views(Removed(lru, i));
      if e.realAddrKey != announcedKey {
        Reannounce(e, announced, announcedKey);
      }
      e.kernelAddr := kernelAddr;
      assert Views(Removed(lru, i)) == rest;
      EntryViews(lru, flows, i);
      Refresh(e, now);
    }

    /** A new entry at the front. */
    method Insert(kernelKey: AddrPort, kernelAddr: UdpAddr, announced: UdpAddr, announcedKey: AddrPort, now: int)
      requires Valid() && kernelKey !in flows
      modifies this
      ensures Valid()
      ensures Contents() == Cache([Flow(kernelKey, announced, announcedKey, kernelAddr, now)] + old(Contents()).list,
                                  old(Contents()).reverse[announcedKey := kernelKey])
      ensures forall e :: e in lru && e !in old(lru) ==> fresh(e)
    {
      hide Keys, Views, Forward, Reverse;
      var e := new FlowEntry(kernelKey, announced, announcedKey, kernelAddr, now);
      ForwardPushed(lru, flows, e);
      KeysPut(reverse, announcedKey, e);
      ViewsPushed(lru, e);
      ReversePushed(lru, reverse, e);
      lru := [e] + lru;
      flows := flows[kernelKey := e];
      reverse := reverse[announcedKey := e];
    }

    /** Reads the next datagram worth delivering from the socket, or its error. */
    method ReadFrom(socket: seq<Arrival>) returns (r: Outcome, rest: seq<Arrival>)
      requires Valid()
      modifies this, lru
      ensures Valid()
      ensures (Contents(), r, rest) == Read(old(Contents()), socket, idleTimeout, maxFlows)
    {
      hide FlowSpec.Receive, Keys, Views, Forward, Reverse;
      rest := socket;
      while rest != []
        invariant Valid()
        invariant Read(Contents(), rest, idleTimeout, maxFlows) == Read(old(Contents()), socket, idleTimeout, maxFlows)
        invariant fresh(set e | e in lru && e !in old(lru))
        decreases |rest|
      {
        var next := rest[0];
        if next.Failure? {
          return Failed, rest[1..];
        }
        var d := Receive(next.datagram);
        rest := rest[1..];
        if d.Some? {
          return Data(d.value), rest;
        }
      }
      r := Waiting;
    }

    /** Receives one datagram. */
    method Receive(d: Datagram) returns (r: Option<Delivered>)
      requires Valid()
      modifies this, lru
      ensures Valid()
      ensures (Contents(), r) == FlowSpec.Receive(old(Contents()), d, idleTimeout, maxFlows)
      ensures forall e :: e in lru && e !in old(lru) ==> fresh(e)
    {
      hide FlowSpec.Lookup, FlowSpec.Remember, ParseUdpHeader, Keys, Views, Forward, Reverse;
      var key := AddrKey(d.from);
      if key == None {
        return Some(Delivered(d.bytes, d.from));
      }
      var cached := Lookup(key.value, d.at);
      if cached.Some? {
        return Some(Delivered(d.bytes, cached.value));
      }
      var h := ParseUdpHeader(d.bytes);
      if h.NotProxy? || h.Malformed? {
        return Some(Delivered(d.bytes, d.from));
      }
      if h.Announced? {
        assert forall i :: 0 <= i < |lru| ==> lru[i] in old(lru);
        Remember(key.value, d.from, h.src, d.later);
      }
      if h.length == |d.bytes| {
        return None;
      }
      r := Some(Delivered(d.bytes[h.length..], if h.Announced? then h.src else d.from));
    }

    /** The address a write is translated to. */
    method WriteTo(addr: UdpAddr, now: int) returns (target: UdpAddr)
      requires Valid()
      modifies this, lru
      ensures Valid()
      ensures (Contents(), target) == Target(old(Contents()), addr, now, idleTimeout)
    {
      hide Answer, Keys, Views, Forward, Reverse;
      var known := ReverseLookup(addr, now);
      target := if known.Some? then known.value else addr;
    }
  }
}
