/** The flow cache as a function of the past: for every run, with flows that go idle, what each event shows follows from
    what the same source, and those who reply to what it announced, did before. */
module FlowHistory {
  import opened Wrappers
  import opened ProxyUdp
  import opened FlowSpec
  import opened FlowLists
  import opened FlowTheorems
  import opened FlowRefinement
  import opened FlowSources

  /** What a source has announced, where it sends from, and when it was last heard of or replied to. */
  datatype Known = Known(announced: UdpAddr, kernel: UdpAddr, seen: int)

  /** It is not longer ago than the timeout. */
  predicate Fresh(k: Option<Known>, now: int, timeout: int) {
    k.Some? && now - k.value.seen <= timeout
  }

  /** The datagram announces a source anew: it is from an address, and nothing fresh is known of that. */
  predicate AnnouncesAnew(h: seq<Event>, d: Datagram, timeout: int)
    decreases |h|, 2
  {
    |d.from.ip| in {4, 16} && Announces(d) && !Fresh(Own(h, d.from, timeout), d.at, timeout)
  }

  /** What is known of a source after h: a datagram of its own refreshes what is fresh, and announces where nothing
      is; a reply to what it stands for refreshes, too. */
  function Own(h: seq<Event>, a: UdpAddr, timeout: int): Option<Known>
    decreases |h|, 0
  {
    if h == [] then None
    else
      var before, e, known := h[..|h| - 1], h[|h| - 1], Own(h[..|h| - 1], a, timeout);
      if e.Recv? && SameSource(e.d.from, a) then
        if Fresh(known, e.d.at, timeout) then Some(known.value.(seen := e.d.at))
        else if Announces(e.d) then Some(Known(Said(e.d.bytes).src, e.d.from, e.d.later))
        else known
      else if e.Send? && Fresh(known, e.sentAt, timeout) && Standing(before, e.addr, timeout).Some?
              && SameSource(Standing(before, e.addr, timeout).value, a) then
        Some(known.value.(seen := e.sentAt))
      else known
  }

  /** The source that stands for an address after h: the last to have announced it, unless it has announced another one
      since. */
  function Standing(h: seq<Event>, addr: UdpAddr, timeout: int): Option<UdpAddr>
    decreases |h|, 1
  {
    if h == [] then None
    else
      var before, e := h[..|h| - 1], h[|h| - 1];
      var standing := Standing(before, addr, timeout);
      if e.Recv? && AnnouncesAnew(before, e.d, timeout) then
        if SameSource(Said(e.d.bytes).src, addr) then Some(e.d.from)
        else if standing.Some? && SameSource(standing.value, e.d.from) then None
        else standing
      else standing
  }

  /** What an event shows after h. */
  function Shown(h: seq<Event>, e: Event, timeout: int): Effect
  {
    match e
    case Recv(d) =>
      var known := Own(h, d.from, timeout);
      if |d.from.ip| !in {4, 16} then Got(Some(Delivered(d.bytes, d.from)))
      else if Fresh(known, d.at, timeout) then Got(Some(Delivered(d.bytes, known.value.announced)))
      else Got(Unannounced(d))
    case Send(addr, at) =>
      var standing := Standing(h, addr, timeout);
      var known := if standing.Some? then Own(h, standing.value, timeout) else None;
      Sent(if Fresh(known, at, timeout) then known.value.kernel else addr)
    case Sweep(_) => Swept
  }

  // The reference that never forgets knows what the past says

  function KnownOf(f: Option<Flow>): Option<Known>
  {
    if f.Some? then Some(Known(f.value.announced, f.value.kernel, f.value.seen)) else None
  }

  predicate Recalls(u: Cache, h: seq<Event>, a: UdpAddr, timeout: int) {
    AddrKey(a).Some? ==> Own(h, a, timeout) == KnownOf(Find(u.list, AddrKey(a).value))
  }

  /** A key that is announced stands for the source that the past says. */
  predicate Leads(u: Cache, h: seq<Event>, addr: UdpAddr, timeout: int) {
    AddrKey(addr).Some? ==>
      var key, standing := AddrKey(addr).value, Standing(h, addr, timeout);
      && (key in u.reverse <==> standing.Some?)
      && (standing.Some? ==> AddrKey(standing.value) == Some(u.reverse[key]))
  }

  ghost predicate Agrees(u: Cache, h: seq<Event>, timeout: int) {
    && (forall a :: Recalls(u, h, a, timeout)) && (forall a :: Leads(u, h, a, timeout))
    && forall a :: a in u.reverse ==> Stands(u.list, u.reverse[a], a)
  }

  /** Sources are told apart by their keys. */
  lemma {:induction false} OneHistory(h: seq<Event>, a: UdpAddr, b: UdpAddr, timeout: int)
    requires SameSource(a, b)
    ensures Own(h, a, timeout) == Own(h, b, timeout) && Standing(h, a, timeout) == Standing(h, b, timeout)
    decreases |h|
  {
    if h != [] {
      OneHistory(h[..|h| - 1], a, b, timeout);
    }
  }

  /** Nothing is known of what is no address, and nothing stands for it. */
  lemma {:induction false} NoHistory(h: seq<Event>, a: UdpAddr, timeout: int)
    requires |a.ip| !in {4, 16}
    ensures Own(h, a, timeout) == None && Standing(h, a, timeout) == None
    decreases |h|
  {
    if h != [] {
      NoHistory(h[..|h| - 1], a, timeout);
    }
  }

  /** One more datagram. */
  lemma Received(h: seq<Event>, d: Datagram, a: UdpAddr, timeout: int)
    ensures var known := Own(h, a, timeout);
            Own(h + [Recv(d)], a, timeout) ==
              if !SameSource(d.from, a) then known
              else if Fresh(known, d.at, timeout) then Some(known.value.(seen := d.at))
              else if Announces(d) then Some(Known(Said(d.bytes).src, d.from, d.later))
              else known
    ensures var standing := Standing(h, a, timeout);
            Standing(h + [Recv(d)], a, timeout) ==
              if !AnnouncesAnew(h, d, timeout) then standing
              else if SameSource(Said(d.bytes).src, a) then Some(d.from)
              else if standing.Some? && SameSource(standing.value, d.from) then None
              else standing
  {
    assert (h + [Recv(d)])[..|h|] == h;
  }

  /** One more reply. */
  lemma Replied(h: seq<Event>, addr: UdpAddr, at: int, a: UdpAddr, timeout: int)
    ensures var known, standing := Own(h, a, timeout), Standing(h, addr, timeout);
            Own(h + [Send(addr, at)], a, timeout) ==
              if Fresh(known, at, timeout) && standing.Some? && SameSource(standing.value, a) then
                Some(known.value.(seen := at))
              else known
    ensures Standing(h + [Send(addr, at)], a, timeout) == Standing(h, a, timeout)
  {
    assert (h + [Send(addr, at)])[..|h|] == h;
  }

  lemma Sweeping(h: seq<Event>, at: int, a: UdpAddr, timeout: int)
    ensures Own(h + [Sweep(at)], a, timeout) == Own(h, a, timeout)
    ensures Standing(h + [Sweep(at)], a, timeout) == Standing(h, a, timeout)
  {
    assert (h + [Sweep(at)])[..|h|] == h;
  }

  /** The past after an event is the past before it, with one source heard of now. */
  ghost predicate Refreshed(h: seq<Event>, e: Event, f: Flow, now: int, timeout: int) {
    && (forall a :: Own(h + [e], a, timeout) ==
                      if AddrKey(a) == Some(f.key) then KnownOf(Some(f.(seen := now))) else Own(h, a, timeout))
    && forall a :: Standing(h + [e], a, timeout) == Standing(h, a, timeout)
  }

  lemma AgreesTouch(u: Cache, h: seq<Event>, e: Event, f: Flow, now: int, timeout: int)
    requires Agrees(u, h, timeout) && Find(u.list, f.key) == Some(f) && Refreshed(h, e, f, now, timeout)
    ensures Agrees(Touch(u, f, now), h + [e], timeout)
  {
    hide Own, Standing;
    var t := Touch(u, f, now);
    forall a
      ensures Recalls(t, h + [e], a, timeout) && Leads(t, h + [e], a, timeout)
    {
      assert Recalls(u, h, a, timeout) && Leads(u, h, a, timeout);
      if AddrKey(a).Some? {
        FindTouched(u, f, now, AddrKey(a).value);
      }
    }
    forall a | a in t.reverse
      ensures Stands(t.list, t.reverse[a], a)
    {
      assert Stands(u.list, u.reverse[a], a);
      FindTouched(u, f, now, u.reverse[a]);
    }
  }

  lemma AgreesSame(u: Cache, h: seq<Event>, e: Event, timeout: int)
    requires Agrees(u, h, timeout)
    requires forall a :: Own(h + [e], a, timeout) == Own(h, a, timeout)
    requires forall a :: Standing(h + [e], a, timeout) == Standing(h, a, timeout)
    ensures Agrees(u, h + [e], timeout)
  {
    hide Own, Standing;
    forall a
      ensures Recalls(u, h + [e], a, timeout) && Leads(u, h + [e], a, timeout)
    {
      assert Recalls(u, h, a, timeout) && Leads(u, h, a, timeout);
    }
  }

  /** A datagram of a source of which nothing fresh is known announces one. */
  lemma AgreesAnnounce(u: Cache, h: seq<Event>, d: Datagram, timeout: int)
    requires Agrees(u, h, timeout) && AddrKey(d.from).Some? && AnnouncesAnew(h, d, timeout)
    ensures Agrees(PlainRemember(u, AddrKey(d.from).value, d.from, Said(d.bytes).src, d.later), h + [Recv(d)], timeout)
  {
    hide Own, Standing;
    var src, key := Said(d.bytes).src, AddrKey(d.from).value;
    KeyExact(src, src);
    var f := Flow(key, src, AddrKey(src).value, d.from, d.later);
    var u' := PlainRemember(u, key, d.from, src, d.later);
    assert u'.list == [f] + Without(u.list, key) && u'.list[1..] == Without(u.list, key);
    forall a
      ensures Recalls(u', h + [Recv(d)], a, timeout)
    {
      assert Recalls(u, h, a, timeout);
      Received(h, d, a, timeout);
      KeyExact(d.from, a);
      if AddrKey(a).Some? {
        FindWithout(u.list, key, AddrKey(a).value);
      }
      if SameSource(d.from, a) {
        OneHistory(h, d.from, a, timeout);
      }
    }
    AnnouncedLeads(u, h, d, f, timeout);
  }

  lemma AnnouncedLeads(u: Cache, h: seq<Event>, d: Datagram, f: Flow, timeout: int)
    requires Agrees(u, h, timeout) && AddrKey(d.from) == Some(f.key) && AnnouncesAnew(h, d, timeout)
    requires f.announced == Said(d.bytes).src && AddrKey(f.announced) == Some(f.announcedKey) && f.kernel == d.from
    requires f.seen == d.later
    ensures var u' := PlainRemember(u, f.key, d.from, f.announced, d.later);
            && (forall a :: Leads(u', h + [Recv(d)], a, timeout))
            && forall a :: a in u'.reverse ==> Stands(u'.list, u'.reverse[a], a)
  {
    hide Own, Standing, AnnouncesAnew, Said;
    var u' := PlainRemember(u, f.key, d.from, f.announced, d.later);
    assert u'.list == [f] + Without(u.list, f.key) && u'.list[1..] == Without(u.list, f.key);
    assert forall a :: a in u.reverse ==> Stands(u.list, u.reverse[a], a);
    forall a
      ensures Leads(u', h + [Recv(d)], a, timeout)
    {
      assert Leads(u, h, a, timeout);
      Received(h, d, a, timeout);
      KeyExact(f.announced, a);
      if Standing(h, a, timeout).Some? {
        KeyExact(Standing(h, a, timeout).value, d.from);
      }
    }
    forall a | a in u'.reverse
      ensures Stands(u'.list, u'.reverse[a], a)
    {
      FindWithout(u.list, f.key, u'.reverse[a]);
    }
  }

  // Every event

  lemma ShownReceive(u: Cache, h: seq<Event>, d: Datagram, l: Limits)
    requires Agrees(u, h, l.timeout)
    ensures PlainStep(u, Recv(d), l).1 == Shown(h, Recv(d), l.timeout)
    ensures Agrees(PlainStep(u, Recv(d), l).0, h + [Recv(d)], l.timeout)
  {
    hide Own, Standing, Said, Touch, PlainRemember, ParseUdpHeader;
    SaidIs(d.bytes);
    KeyExact(d.from, d.from);
    forall a
      ensures AddrKey(d.from).Some? && AddrKey(d.from) == AddrKey(a) <==> SameSource(d.from, a)
      ensures SameSource(d.from, a) ==> Own(h, d.from, l.timeout) == Own(h, a, l.timeout)
    {
      KeyExact(d.from, a);
      if SameSource(d.from, a) {
        OneHistory(h, d.from, a, l.timeout);
      }
    }
    forall a {
      Received(h, d, a, l.timeout);
    }
    if AddrKey(d.from).None? {
      AgreesSame(u, h, Recv(d), l.timeout);
    } else {
      assert Recalls(u, h, d.from, l.timeout);
      var found := Find(u.list, AddrKey(d.from).value);
      if found.Some? && !Idle(found.value, d.at, l.timeout) {
        AgreesTouch(u, h, Recv(d), found.value, d.at, l.timeout);
      } else if Announces(d) {
        AgreesAnnounce(u, h, d, l.timeout);
      } else {
        AgreesSame(u, h, Recv(d), l.timeout);
      }
    }
  }

  lemma ShownTarget(u: Cache, h: seq<Event>, addr: UdpAddr, at: int, l: Limits)
    requires Agrees(u, h, l.timeout)
    ensures PlainStep(u, Send(addr, at), l).1 == Shown(h, Send(addr, at), l.timeout)
    ensures Agrees(PlainStep(u, Send(addr, at), l).0, h + [Send(addr, at)], l.timeout)
  {
    hide Own, Standing, Touch;
    KeyExact(addr, addr);
    assert Leads(u, h, addr, l.timeout);
    forall a {
      Replied(h, addr, at, a, l.timeout);
    }
    var standing := Standing(h, addr, l.timeout);
    if AddrKey(addr).None? {
      NoHistory(h, addr, l.timeout);
    }
    if standing == None {
      AgreesSame(u, h, Send(addr, at), l.timeout);
    } else {
      var key, found := u.reverse[AddrKey(addr).value], Find(u.list, u.reverse[AddrKey(addr).value]);
      assert Stands(u.list, key, AddrKey(addr).value);
      forall a
        ensures AddrKey(a) == Some(key) <==> SameSource(standing.value, a)
        ensures SameSource(standing.value, a) ==> Own(h, a, l.timeout) == KnownOf(found)
      {
        KeyExact(standing.value, a);
        assert Recalls(u, h, a, l.timeout);
      }
      assert Recalls(u, h, standing.value, l.timeout);
      if Idle(found.value, at, l.timeout) {
        AgreesSame(u, h, Send(addr, at), l.timeout);
      } else {
        AgreesTouch(u, h, Send(addr, at), found.value, at, l.timeout);
      }
    }
  }

  lemma ShownStep(u: Cache, h: seq<Event>, e: Event, l: Limits)
    requires Agrees(u, h, l.timeout)
    ensures PlainStep(u, e, l).1 == Shown(h, e, l.timeout)
    ensures Agrees(PlainStep(u, e, l).0, h + [e], l.timeout)
  {
    match e
    case Recv(d) => ShownReceive(u, h, d, l);
    case Send(addr, at) => ShownTarget(u, h, addr, at, l);
    case Sweep(at) =>
      forall a {
        Sweeping(h, at, a, l.timeout);
      }
      AgreesSame(u, h, e, l.timeout);
  }

  lemma {:induction false} ShownRun(u: Cache, h: seq<Event>, es: seq<Event>, l: Limits)
    requires Agrees(u, h, l.timeout)
    ensures var r := PlainRun(u, es, l).1;
            |r| == |es| && forall i :: 0 <= i < |es| ==> r[i] == Shown(h + es[..i], es[i], l.timeout)
    decreases |es|
  {
    hide PlainStep, Agrees, Shown;
    if es != [] {
      var e, tail := es[0], es[1..];
      ShownStep(u, h, e, l);
      ShownRun(PlainStep(u, e, l).0, h + [e], tail, l);
      var r := PlainRun(u, es, l).1;
      forall i | 0 <= i < |es|
        ensures r[i] == Shown(h + es[..i], es[i], l.timeout)
      {
        if i == 0 {
          assert h + es[..0] == h;
        } else {
          assert h + es[..i] == h + [e] + tail[..i - 1];
        }
      }
    }
  }

  /** The reference that never forgets shows, over every run, what the past says. */
  lemma ReferenceShows(es: seq<Event>, l: Limits)
    ensures var r := PlainRun(EMPTY, es, l).1;
            |r| == |es| && forall i :: 0 <= i < |es| ==> r[i] == Shown(es[..i], es[i], l.timeout)
  {
    forall a
      ensures Recalls(EMPTY, [], a, l.timeout) && Leads(EMPTY, [], a, l.timeout)
    {
    }
    ShownRun(EMPTY, [], es, l);
    forall i | 0 <= i < |es|
      ensures [] + es[..i] == es[..i]
    {
    }
  }

  /** A list as long as what is asked of it answers everything. */
  lemma {:induction false} RankInside(s: seq<Flow>, key: AddrPort)
    requires Find(s, key).Some?
    ensures Rank(s, key) < |s|
  {
    if s[0].key != key {
      RankInside(s[1..], key);
    }
  }

  lemma PlainLength(u: Cache, e: Event, l: Limits)
    ensures |PlainStep(u, e, l).0.list| <= |u.list| + 1
  {
    hide ParseUdpHeader;
    forall key
      ensures |Without(u.list, key)| <= |u.list|
      ensures Find(u.list, key).Some? ==> |Without(u.list, key)| < |u.list|
    {
      FindMembers(u.list, key);
      if Find(u.list, key).Some? {
        Shrinks(u.list, Find(u.list, key).value);
      }
    }
  }

  lemma {:induction false} AmpleAnswers(u: Cache, es: seq<Event>, l: Limits)
    requires |u.list| + |es| <= l.max
    ensures RunAnswerable(u, es, l)
    decreases |es|
  {
    hide PlainStep;
    if es != [] {
      forall key
        ensures Find(u.list, key).Some? ==> Rank(u.list, key) < l.max
      {
        if Find(u.list, key).Some? {
          RankInside(u.list, key);
        }
      }
      PlainLength(u, es[0], l);
      AmpleAnswers(PlainStep(u, es[0], l).0, es[1..], l);
    }
  }

  /** The bounded cache, over every run in which each source used is new, idle or among the most recently used:
      every event shows exactly what the past of its source says. A source is known for as long as it is heard of,
      or replied to, at least every timeout. */
  lemma AnswersExact(es: seq<Event>, now: int, l: Limits)
    requires Timed(es, now) && l.max > 0 && RunAnswerable(EMPTY, es, l)
    ensures var r := Run(EMPTY, es, l).1;
            |r| == |es| && forall i :: 0 <= i < |es| ==> r[i] == Shown(es[..i], es[i], l.timeout)
  {
    BoundedAnswersAsUnbounded(es, now, l);
    ReferenceShows(es, l);
  }

  /** So do all runs that are no longer than the cache is large. */
  lemma SourcesExact(es: seq<Event>, now: int, l: Limits)
    requires Timed(es, now) && |es| <= l.max && l.max > 0
    ensures var r := Run(EMPTY, es, l).1;
            |r| == |es| && forall i :: 0 <= i < |es| ==> r[i] == Shown(es[..i], es[i], l.timeout)
  {
    AmpleAnswers(EMPTY, es, l);
    AnswersExact(es, now, l);
  }

  // Without idle flows

  /** Everything in h happens from start on and within the timeout. */
  predicate Within(h: seq<Event>, start: int, timeout: int) {
    forall i :: 0 <= i < |h| ==> start <= h[i].At() <= h[i].End() <= start + timeout
  }

  lemma {:induction false} TimedWithin(es: seq<Event>, now: int, start: int, timeout: int)
    requires Timed(es, now) && start <= now && EndOf(es, now) <= start + timeout
    ensures now <= EndOf(es, now) && Within(es, start, timeout)
    decreases |es|
  {
    if es != [] {
      var tail, end := es[1..], es[0].End();
      assert EndOf(tail, end) == EndOf(es, now);
      TimedWithin(tail, end, start, timeout);
      assert forall i :: 1 <= i < |es| ==> es[i] == tail[i - 1];
    }
  }

  /** Then what is known of a source is the first thing it announced, and what stands for an address is the last
      source whose first announcement that was. */
  lemma {:induction false} NoneIdle(h: seq<Event>, a: UdpAddr, start: int, timeout: int)
    requires Within(h, start, timeout)
    ensures var known := Own(h, a, timeout);
            && (known.None? <==> AnnouncedBy(h, a).None?)
            && (known.Some? ==> AnnouncedBy(h, a) == Some(known.value.announced) && start <= known.value.seen)
    ensures var standing := Standing(h, a, timeout);
            && standing == RepliesTo(h, a)
            && (standing.Some? ==>
                  Own(h, standing.value, timeout).Some?
                      && Own(h, standing.value, timeout).value.kernel == standing.value)
    decreases |h|
  {
    if h != [] {
      var before, e := h[..|h| - 1], h[|h| - 1];
      assert h == before + [e];
      NoneIdle(before, a, start, timeout);
      if e.Recv? {
        NoneIdle(before, e.d.from, start, timeout);
        if SameSource(e.d.from, a) {
          OneHistory(before, e.d.from, a, timeout);
        }
      }
      var standing := Standing(before, a, timeout);
      if standing.Some? {
        NoneIdle(before, standing.value, start, timeout);
        if e.Recv? && SameSource(standing.value, e.d.from) {
          OneHistory(before, standing.value, e.d.from, timeout);
        }
      }
    }
  }

  /** Sources are kept apart, over every run that is no longer than the cache is large and than a flow may be idle:
      every datagram is delivered under the first source announced in a datagram from the very address and port it
      comes from, every reply goes to where the last source to announce its destination sends from, and what others
      send counts for nothing else. */
  lemma OwnSourceOnly(es: seq<Event>, now: int, l: Limits)
    requires Timed(es, now) && |es| <= l.max && l.max > 0 && EndOf(es, now) - now <= l.timeout
    ensures var r := Run(EMPTY, es, l).1;
            |r| == |es| && forall i :: 0 <= i < |es| ==> r[i] == Expected(es[..i], es[i])
  {
    hide Own, Standing, AnnouncedBy, RepliesTo, Unannounced;
    SourcesExact(es, now, l);
    TimedWithin(es, now, now, l.timeout);
    forall i | 0 <= i < |es|
      ensures Shown(es[..i], es[i], l.timeout) == Expected(es[..i], es[i])
    {
      match es[i]
      case Recv(d) => NoneIdle(es[..i], d.from, now, l.timeout);
      case Send(addr, at) =>
        NoneIdle(es[..i], addr, now, l.timeout);
        if Standing(es[..i], addr, l.timeout).Some? {
          NoneIdle(es[..i], Standing(es[..i], addr, l.timeout).value, now, l.timeout);
        }
      case Sweep(_) =>
    }
  }
}
