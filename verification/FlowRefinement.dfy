/** The bounded cache answers as a cache that never forgets: the reference keeps every announcement, with the time
    each was last used, and only ignores those that have been idle too long. */
module FlowRefinement {
  import opened Wrappers
  import opened ProxyUdp
  import opened FlowSpec
  import opened FlowLists
  import opened FlowTheorems

  // The reference: nothing is ever dropped

  function PlainLookup(u: Cache, key: AddrPort, now: int, timeout: int): (Cache, Option<Flow>)
  {
    match Find(u.list, key)
    case None => (u, None)
    case Some(f) => if Idle(f, now, timeout) then (u, None) else (Touch(u, f, now), Some(f))
  }

  function PlainRemember(u: Cache, key: AddrPort, kernel: UdpAddr, announced: UdpAddr, now: int): Cache
  {
    match AddrKey(announced)
    case None => u
    case Some(announcedKey) =>
      var f := Flow(key, announced, announcedKey, kernel, now);
      var forgotten := if Find(u.list, key).Some? then Forget(u, Find(u.list, key).value) else u;
      Cache([f] + Without(u.list, key), forgotten.reverse[announcedKey := key])
  }

  function PlainReceive(u: Cache, d: Datagram, timeout: int): (Cache, Option<Delivered>)
  {
    match AddrKey(d.from)
    case None => (u, Some(Delivered(d.bytes, d.from)))
    case Some(key) =>
      var (u', f) := PlainLookup(u, key, d.at, timeout);
      if f.Some? then (u', Some(Delivered(d.bytes, f.value.announced)))
      else
        var h := ParseUdpHeader(d.bytes);
        (if h.Announced? then PlainRemember(u', key, d.from, h.src, d.later) else u', Opened(d, h))
  }

  /** The kernel source a reply to an address would use. */
  function Behind(u: Cache, addr: UdpAddr): Option<AddrPort>
  {
    var key := AddrKey(addr);
    if key.Some? && key.value in u.reverse then Some(u.reverse[key.value]) else None
  }

  function PlainTarget(u: Cache, addr: UdpAddr, now: int, timeout: int): (Cache, UdpAddr)
  {
    match Behind(u, addr)
    case None => (u, addr)
    case Some(key) =>
      var (u', f) := PlainLookup(u, key, now, timeout);
      (u', if f.Some? then f.value.kernel else addr)
  }

  function PlainStep(u: Cache, e: Event, l: Limits): (Cache, Effect)
  {
    match e
    case Recv(d) => var (u', r) := PlainReceive(u, d, l.timeout); (u', Got(r))
    case Send(addr, at) => var (u', target) := PlainTarget(u, addr, at, l.timeout); (u', Sent(target))
    case Sweep(_) => (u, Swept)
  }

  function PlainRun(u: Cache, es: seq<Event>, l: Limits): (Cache, seq<Effect>)
    decreases |es|
  {
    if es == [] then (u, [])
    else
      var (u1, effect) := PlainStep(u, es[0], l);
      var (u2, effects) := PlainRun(u1, es[1..], l);
      (u2, [effect] + effects)
  }

  // What the bounded cache may be asked

  /** A source is unknown to the reference, idle, or among the max most recently used. */
  predicate Answerable(u: Cache, key: AddrPort, now: int, l: Limits) {
    Find(u.list, key).None? || Idle(Find(u.list, key).value, now, l.timeout) || Rank(u.list, key) < l.max
  }

  predicate StepAnswerable(u: Cache, e: Event, l: Limits) {
    match e
    case Recv(d) => AddrKey(d.from).Some? ==> Answerable(u, AddrKey(d.from).value, d.at, l)
    case Send(addr, at) => Behind(u, addr).Some? ==> Answerable(u, Behind(u, addr).value, at, l)
    case Sweep(_) => true
  }

  predicate RunAnswerable(u: Cache, es: seq<Event>, l: Limits)
    decreases |es|
  {
    es != [] ==> StepAnswerable(u, es[0], l) && RunAnswerable(PlainStep(u, es[0], l).0, es[1..], l)
  }

  // The relation between the two

  function Restricted(reverse: map<AddrPort, AddrPort>, keys: set<AddrPort>): map<AddrPort, AddrPort>
  {
    map a | a in reverse && reverse[a] in keys :: reverse[a]
  }

  /** What the bounded cache lacks is idle or not among the most recently used. */
  predicate Lost(u: Cache, key: AddrPort, now: int, l: Limits) {
    Find(u.list, key).Some? ==> Idle(Find(u.list, key).value, now, l.timeout) || Rank(u.list, key) >= l.max
  }

  /** The bounded cache is the reference cut down to some of its kernel sources, at most bound of them. */
  ghost predicate Related(c: Cache, u: Cache, now: int, l: Limits, bound: nat) {
    var keys := KeySet(c.list);
    && Ok(c, now, bound) && Ordered(u.list, now)
    && (forall a :: a in u.reverse ==> Stands(u.list, u.reverse[a], a))
    && c.list == Filter(u.list, keys)
    && c.reverse == Restricted(u.reverse, keys)
    && (forall key :: key !in keys ==> Lost(u, key, now, l))
  }

  ghost predicate Rel(c: Cache, u: Cache, now: int, l: Limits) {
    Related(c, u, now, l, l.max)
  }

  /** What is held in both is the same flow; what is answerable and fresh is held. */
  lemma RelFind(c: Cache, u: Cache, key: AddrPort, now: int, l: Limits, bound: nat)
    requires Related(c, u, now, l, bound)
    ensures Find(c.list, key) == if key in KeySet(c.list) then Find(u.list, key) else None
    ensures key in KeySet(c.list) <==> Find(c.list, key).Some?
    ensures Answerable(u, key, now, l) && Find(u.list, key).Some? && !Idle(Find(u.list, key).value, now, l.timeout) ==>
              Find(c.list, key).Some?
  {
    FindFilter(u.list, KeySet(c.list), key);
    KeySetFind(c.list, key);
    assert key !in KeySet(c.list) ==> Lost(u, key, now, l);
  }

  lemma RelLater(c: Cache, u: Cache, was: int, now: int, l: Limits)
    requires Rel(c, u, was, l) && was <= now
    ensures Rel(c, u, now, l)
  {
    OrderedLater(c.list, was, now);
    OrderedLater(u.list, was, now);
    forall key | key !in KeySet(c.list)
      ensures Lost(u, key, now, l)
    {
      assert Lost(u, key, was, l);
    }
  }

  /** Dropping a flow the reference may lose. */
  lemma RelDrop(c: Cache, u: Cache, f: Flow, now: int, l: Limits, bound: nat)
    requires Related(c, u, now, l, bound) && Find(c.list, f.key) == Some(f) && Lost(u, f.key, now, l)
    ensures Related(Drop(c, f), u, now, l, bound) && |Drop(c, f).list| < |c.list|
  {
    var keys := KeySet(c.list);
    DropOk(c, f, now, bound);
    KeySetWithout(c.list, f.key);
    FilterWithout(u.list, keys, f.key);
    RelFind(c, u, f.key, now, l, bound);
    assert forall a :: a in u.reverse && u.reverse[a] == f.key ==> a == f.announcedKey by {
      assert forall a :: a in u.reverse ==> Stands(u.list, u.reverse[a], a);
    }
    assert Drop(c, f).reverse == Restricted(u.reverse, keys - {f.key});
  }

  /** What is lost stays lost when another flow moves to the front. */
  lemma LostPushed(u: Cache, f: Flow, reverse: map<AddrPort, AddrPort>, key: AddrPort, now: int, l: Limits)
    requires Ordered(u.list, now) && f.key != key && Lost(u, key, now, l)
    ensures Lost(Cache([f] + Without(u.list, f.key), reverse), key, now, l)
  {
    FindWithout(u.list, f.key, key);
    assert ([f] + Without(u.list, f.key))[1..] == Without(u.list, f.key);
    if Find(u.list, key).Some? {
      RankPushed(u.list, f, key, now);
    }
  }

  /** The same flow put in front in both, in place of what they had for its key. */
  lemma RelPush(c: Cache, u: Cache, f: Flow, c': Cache, u': Cache, now: int, l: Limits, bound: nat)
    requires Related(c, u, now, l, bound) && f.seen == now
    requires c'.list == [f] + Without(c.list, f.key) && u'.list == [f] + Without(u.list, f.key)
    requires Ok(c', now, |c'.list|) && Ordered(u'.list, now)
    requires forall a :: a in u'.reverse ==> Stands(u'.list, u'.reverse[a], a)
    requires c'.reverse == Restricted(u'.reverse, KeySet(c.list) + {f.key})
    ensures Related(c', u', now, l, |c'.list|)
  {
    var keys := KeySet(c.list);
    KeySetWithout(c.list, f.key);
    assert c'.list[1..] == Without(c.list, f.key) && u'.list[1..] == Without(u.list, f.key);
    assert KeySet(c'.list) == keys + {f.key};
    FilterWithout(u.list, keys, f.key);
    FilterWithout(u.list, keys - {f.key}, f.key);
    assert keys - {f.key} - {f.key} == keys - {f.key};
    assert Filter(u'.list, keys + {f.key}) == [f] + Filter(Without(u.list, f.key), keys + {f.key});
    forall key | key !in keys + {f.key}
      ensures Lost(u', key, now, l)
    {
      LostPushed(u, f, u'.reverse, key, now, l);
    }
  }

  lemma RelTouch(c: Cache, u: Cache, f: Flow, now: int, l: Limits)
    requires Rel(c, u, now, l) && Find(c.list, f.key) == Some(f)
    ensures Rel(Touch(c, f, now), Touch(u, f, now), now, l)
  {
    RelFind(c, u, f.key, now, l, l.max);
    AgreesWith(c, f);
    AgreesWith(u, f);
    TouchOk(c, f, now, now, l.max);
    PushOk(u, f.(seen := now), now, now, l.max);
    assert KeySet(c.list) + {f.key} == KeySet(c.list);
    RelPush(c, u, f.(seen := now), Touch(c, f, now), Touch(u, f, now), now, l, l.max);
  }

  /** A lookup of an answerable source: the same answer, and still related. */
  lemma RelLookup(c: Cache, u: Cache, key: AddrPort, now: int, l: Limits)
    requires Rel(c, u, now, l) && Answerable(u, key, now, l)
    ensures var (c', r) := Lookup(c, key, now, l.timeout);
            var (u', r') := PlainLookup(u, key, now, l.timeout);
            r == r' && Rel(c', u', now, l)
            && (r.None? ==>
                  && Find(c'.list, key).None?
                  && (Find(u'.list, key).Some? ==> Idle(Find(u'.list, key).value, now, l.timeout)))
  {
    RelFind(c, u, key, now, l, l.max);
    hide Related;
    if Find(c.list, key).Some? {
      var f := Find(c.list, key).value;
      if Idle(f, now, l.timeout) {
        RelDrop(c, u, f, now, l, l.max);
        FindWithout(c.list, key, key);
      } else {
        RelTouch(c, u, f, now, l);
      }
    }
  }

  // Announcements

  /** The announced keys after an announcement: those that stand, and the new one. */
  lemma AnnounceReverse(u: Cache, f: Flow, keys: set<AddrPort>, now: int)
    requires AddrKey(f.announced) == Some(f.announcedKey) && f.key !in keys
    requires forall a :: a in u.reverse ==> Stands(u.list, u.reverse[a], a)
    ensures var reverse := PlainRemember(u, f.key, f.kernel, f.announced, now).reverse;
            && Restricted(u.reverse, keys)[f.announcedKey := f.key] == Restricted(reverse, keys + {f.key})
            && forall a :: a in reverse ==>
                  if reverse[a] == f.key then a == f.announcedKey else Stands(u.list, reverse[a], a)
  {
    assert forall a :: a in u.reverse && u.reverse[a] == f.key ==> Stands(u.list, f.key, a);
  }

  /** A flow that the bounded cache lacks put in front in both, before anything is evicted. */
  lemma RelAnnounce(c: Cache, u: Cache, f: Flow, now: int, l: Limits)
    requires Rel(c, u, now, l) && Find(c.list, f.key).None? && f.seen == now
             && AddrKey(f.announced) == Some(f.announcedKey)
    ensures var c' := Cache([f] + c.list, c.reverse[f.announcedKey := f.key]);
            Related(c', PlainRemember(u, f.key, f.kernel, f.announced, now), now, l, |c'.list|)
  {
    var c1, u1 := c.(reverse := c.reverse[f.announcedKey := f.key]),
        PlainRemember(u, f.key, f.kernel, f.announced, now);
    RelFind(c, u, f.key, now, l, l.max);
    WithoutAbsentFind(c.list, f.key);
    AnnounceReverse(u, f, KeySet(c.list), now);
    hide Restricted, Forget;
    StandsWithout(c, f);
    PushOk(c1, f, now, now, l.max);
    PushOk(u.(reverse := u1.reverse), f, now, now, l.max);
    hide Ordered, Lost, KeySet, Filter, Find, Without;
    RelPush(c, u, f, Cache([f] + c.list, c1.reverse), u1, now, l, l.max);
  }

  lemma StandsWithout(c: Cache, f: Flow)
    requires Find(c.list, f.key).None? && forall a :: a in c.reverse ==> Stands(c.list, c.reverse[a], a)
    ensures forall a :: a in c.reverse ==> c.reverse[a] != f.key
  {
    assert forall a :: a in c.reverse ==> Stands(c.list, c.reverse[a], a);
  }

  /** Evicting the last flow and putting one in front commute. */
  lemma DropPushed(c: Cache, f: Flow, last: Flow)
    requires f.key != last.key
    ensures Drop(Cache([f] + c.list, c.reverse[f.announcedKey := f.key]), last)
         == Cache([f] + Drop(c, last).list, Drop(c, last).reverse[f.announcedKey := f.key])
  {
    assert ([f] + c.list)[1..] == c.list;
  }

  lemma RelRemember(c: Cache, u: Cache, key: AddrPort, kernel: UdpAddr, announced: UdpAddr, now: int, l: Limits)
    requires Rel(c, u, now, l) && Find(c.list, key).None? && l.max > 0
    ensures Rel(Remember(c, key, kernel, announced, now, l.max), PlainRemember(u, key, kernel, announced, now), now, l)
  {
    if AddrKey(announced).Some? {
      var f := Flow(key, announced, AddrKey(announced).value, kernel, now);
      var u' := PlainRemember(u, key, kernel, announced, now);
      var c' := Cache([f] + c.list, c.reverse[f.announcedKey := key]);
      RelAnnounce(c, u, f, now, l);
      OverflowEvictsOldest(c, now, l.max);
      if |c.list| == l.max {
        RelOverflow(c, c', u', f, now, l);
      }
      hide PlainRemember, Ordered;
    }
  }

  lemma RelOverflow(c: Cache, c': Cache, u': Cache, f: Flow, now: int, l: Limits)
    requires Related(c', u', now, l, l.max + 1) && |c.list| == l.max > 0 && Ordered(c.list, now)
    requires c' == Cache([f] + c.list, c.reverse[f.announcedKey := f.key]) && Find(c.list, f.key).None?
    ensures var last := c.list[l.max - 1];
            Rel(Cache([f] + Drop(c, last).list, Drop(c, last).reverse[f.announcedKey := f.key]), u', now, l)
  {
    var last := c.list[l.max - 1];
    assert c'.list[l.max] == last;
    RankLast(c'.list, now);
    RelFind(c', u', last.key, now, l, l.max + 1);
    RankFilter(u'.list, KeySet(c'.list), last.key);
    RelDrop(c', u', last, now, l, l.max + 1);
    FindMembers(c.list, f.key);
    DropPushed(c, f, last);
  }

  // Steps and runs

  lemma {:induction false} RelSweep(c: Cache, u: Cache, now: int, l: Limits)
    requires Rel(c, u, now, l)
    ensures Rel(EvictIdle(c, now, l.timeout), u, now, l)
    decreases |c.list|
  {
    if c.list != [] {
      var f := c.list[|c.list| - 1];
      if Idle(f, now, l.timeout) {
        RankLast(c.list, now);
        RelFind(c, u, f.key, now, l, l.max);
        RelDrop(c, u, f, now, l, l.max);
        hide Related, Drop;
        RelSweep(Drop(c, f), u, now, l);
      }
    }
  }

  lemma RelReceive(c: Cache, u: Cache, d: Datagram, l: Limits)
    requires Rel(c, u, d.at, l) && d.at <= d.later && l.max > 0 && StepAnswerable(u, Recv(d), l)
    ensures Receive(c, d, l.timeout, l.max).1 == PlainReceive(u, d, l.timeout).1
    ensures Rel(Receive(c, d, l.timeout, l.max).0, PlainReceive(u, d, l.timeout).0, d.later, l)
  {
    hide Rel, Lookup, PlainLookup, Remember, PlainRemember, ParseUdpHeader, Opened;
    if AddrKey(d.from).Some? {
      var key, h := AddrKey(d.from).value, ParseUdpHeader(d.bytes);
      RelLookup(c, u, key, d.at, l);
      var c', u' := Lookup(c, key, d.at, l.timeout).0, PlainLookup(u, key, d.at, l.timeout).0;
      RelLater(c', u', d.at, d.later, l);
      if Lookup(c, key, d.at, l.timeout).1.None? && h.Announced? {
        RelRemember(c', u', key, d.from, h.src, d.later, l);
      }
    } else {
      RelLater(c, u, d.at, d.later, l);
    }
  }

  lemma RelTarget(c: Cache, u: Cache, addr: UdpAddr, now: int, l: Limits)
    requires Rel(c, u, now, l) && StepAnswerable(u, Send(addr, now), l)
    ensures Target(c, addr, now, l.timeout).1 == PlainTarget(u, addr, now, l.timeout).1
    ensures Rel(Target(c, addr, now, l.timeout).0, PlainTarget(u, addr, now, l.timeout).0, now, l)
  {
    if Behind(u, addr).Some? {
      var key := Behind(u, addr).value;
      RelFind(c, u, key, now, l, l.max);
      RelLookup(c, u, key, now, l);
      hide Related, Lookup, PlainLookup;
      if key !in KeySet(c.list) {
        LostUnanswered(c, u, key, now, l);
      }
    }
  }

  /** A source the bounded cache lacks is not answered for. */
  lemma LostUnanswered(c: Cache, u: Cache, key: AddrPort, now: int, l: Limits)
    requires Find(c.list, key).None?
    ensures Lookup(c, key, now, l.timeout) == (c, None)
  {
  }

  lemma RelStep(c: Cache, u: Cache, e: Event, was: int, l: Limits)
    requires Rel(c, u, was, l) && was <= e.At() <= e.End() && l.max > 0 && StepAnswerable(u, e, l)
    ensures Step(c, e, l).1 == PlainStep(u, e, l).1
    ensures Rel(Step(c, e, l).0, PlainStep(u, e, l).0, e.End(), l)
  {
    hide Rel, Receive, PlainReceive, Target, PlainTarget, EvictIdle;
    RelLater(c, u, was, e.At(), l);
    match e
    case Recv(d) => RelReceive(c, u, d, l);
    case Send(addr, at) => RelTarget(c, u, addr, at, l);
    case Sweep(at) => RelSweep(c, u, at, l);
  }

  lemma {:induction false} RelRun(c: Cache, u: Cache, es: seq<Event>, now: int, l: Limits)
    requires Rel(c, u, now, l) && Timed(es, now) && l.max > 0 && RunAnswerable(u, es, l)
    ensures Run(c, es, l).1 == PlainRun(u, es, l).1
    decreases |es|
  {
    hide Rel, Step, PlainStep, StepAnswerable;
    if es != [] {
      RelStep(c, u, es[0], now, l);
      RelRun(Step(c, es[0], l).0, PlainStep(u, es[0], l).0, es[1..], es[0].End(), l);
    }
  }

  /** Refinement, over every run from the empty cache: as long as each source used is new, idle, or among the max most
      recently used, every datagram is delivered and every reply addressed as the unbounded reference would. */
  lemma BoundedAnswersAsUnbounded(es: seq<Event>, now: int, l: Limits)
    requires Timed(es, now) && l.max > 0 && RunAnswerable(EMPTY, es, l)
    ensures Run(EMPTY, es, l).1 == PlainRun(EMPTY, es, l).1
  {
    RelRun(EMPTY, EMPTY, es, now, l);
  }
}
