/** Facts about lists of flows: order, removal, and what a bounded list keeps of an unbounded one. */
module FlowLists {
  import opened Wrappers
  import opened ProxyUdp
  import opened FlowSpec

  /** One flow for each key, most recently seen first, none seen after now. */
  ghost predicate Ordered(s: seq<Flow>, now: int) {
    s != [] ==> s[0].seen <= now && Find(s[1..], s[0].key).None? && Ordered(s[1..], s[0].seen)
  }

  /** The same, place by place. */
  lemma {:induction false} OrderedMeans(s: seq<Flow>, now: int)
    ensures Ordered(s, now) <==>
              && Distinct(s)
              && (forall i, j :: 0 <= i < j < |s| ==> s[j].seen <= s[i].seen)
              && (forall f :: f in s ==> f.seen <= now)
  {
    if s != [] {
      var t := s[1..];
      OrderedMeans(t, s[0].seen);
      FindMembers(t, s[0].key);
      if Ordered(s, now) {
        forall i, j | 0 <= i < j < |s|
          ensures s[i].key != s[j].key && s[j].seen <= s[i].seen
        {
          assert s[j] == t[j - 1] && t[j - 1] in t;
          if i > 0 {
            assert s[i] == t[i - 1];
          }
        }
      } else if s[0].seen <= now && Find(t, s[0].key).None? {
        assert forall i :: 0 <= i < |t| ==> t[i] == s[i + 1];
      } else if s[0].seen <= now {
        var f := Find(t, s[0].key).value;
        var i :| 0 <= i < |t| && t[i] == f;
        assert s[i + 1].key == s[0].key;
      }
    }
  }

  lemma {:induction false} OrderedLater(s: seq<Flow>, now: int, later: int)
    requires Ordered(s, now) && now <= later
    ensures Ordered(s, later)
  {
  }

  lemma {:induction false} FindWithout(s: seq<Flow>, key: AddrPort, other: AddrPort)
    ensures Find(Without(s, key), other) == if other == key then None else Find(s, other)
  {
    if s != [] {
      FindWithout(s[1..], key, other);
    }
  }

  lemma {:induction false} OrderedWithout(s: seq<Flow>, key: AddrPort, now: int)
    requires Ordered(s, now)
    ensures Ordered(Without(s, key), now)
  {
    if s != [] {
      OrderedWithout(s[1..], key, s[0].seen);
      FindWithout(s[1..], key, s[0].key);
      OrderedLater(Without(s[1..], key), s[0].seen, now);
    }
  }

  lemma {:induction false} WithoutAbsentFind(s: seq<Flow>, key: AddrPort)
    requires Find(s, key).None?
    ensures Without(s, key) == s
  {
    FindMembers(s, key);
    WithoutAbsent(s, key);
  }

  lemma {:induction false} FindSize(s: seq<Flow>, key: AddrPort)
    requires Find(s, key).Some?
    ensures |Without(s, key)| < |s|
  {
    if s[0].key != key {
      FindSize(s[1..], key);
    }
  }

  // Keys and ranks

  ghost function KeySet(s: seq<Flow>): set<AddrPort>
  {
    if s == [] then {} else {s[0].key} + KeySet(s[1..])
  }

  /** How many flows stand before that of a key. */
  function Rank(s: seq<Flow>, key: AddrPort): nat
  {
    if s == [] || s[0].key == key then 0 else 1 + Rank(s[1..], key)
  }

  ghost function Filter(s: seq<Flow>, keys: set<AddrPort>): (r: seq<Flow>)
    ensures |r| <= |s|
  {
    if s == [] then [] else if s[0].key in keys then [s[0]] + Filter(s[1..], keys) else Filter(s[1..], keys)
  }

  lemma {:induction false} KeySetFind(s: seq<Flow>, key: AddrPort)
    ensures key in KeySet(s) <==> Find(s, key).Some?
  {
    if s != [] {
      KeySetFind(s[1..], key);
    }
  }

  lemma {:induction false} KeySetWithout(s: seq<Flow>, key: AddrPort)
    ensures KeySet(Without(s, key)) == KeySet(s) - {key}
  {
    if s != [] {
      KeySetWithout(s[1..], key);
    }
  }

  lemma {:induction false} FilterWithout(s: seq<Flow>, keys: set<AddrPort>, key: AddrPort)
    ensures Filter(Without(s, key), keys) == Without(Filter(s, keys), key)
    ensures Filter(Without(s, key), keys) == Filter(s, keys - {key})
    ensures Filter(Without(s, key), keys + {key}) == Filter(s, keys - {key})
  {
    if s != [] {
      FilterWithout(s[1..], keys, key);
    }
  }

  lemma {:induction false} FindFilter(s: seq<Flow>, keys: set<AddrPort>, key: AddrPort)
    ensures Find(Filter(s, keys), key) == if key in keys then Find(s, key) else None
  {
    if s != [] {
      FindFilter(s[1..], keys, key);
    }
  }

  /** A flow stands no further back among those kept than among all. */
  lemma {:induction false} RankFilter(s: seq<Flow>, keys: set<AddrPort>, key: AddrPort)
    requires key in keys && Find(s, key).Some?
    ensures Rank(s, key) >= Rank(Filter(s, keys), key)
  {
    if s[0].key != key {
      RankFilter(s[1..], keys, key);
    }
  }

  /** Another flow moving to the front never brings a flow further forward. */
  lemma RankPushed(s: seq<Flow>, f: Flow, key: AddrPort, now: int)
    requires Ordered(s, now) && f.key != key && Find(s, key).Some?
    ensures Rank([f] + Without(s, f.key), key) >= Rank(s, key)
  {
    RankWithout(s, f.key, key, now);
    assert ([f] + Without(s, f.key))[1..] == Without(s, f.key);
  }

  lemma {:induction false} RankWithout(s: seq<Flow>, gone: AddrPort, key: AddrPort, now: int)
    requires Ordered(s, now) && gone != key && Find(s, key).Some?
    ensures Rank(Without(s, gone), key) >= Rank(s, key) - 1
  {
    if s[0].key == gone {
      WithoutAbsentFind(s[1..], gone);
    } else if s[0].key != key {
      RankWithout(s[1..], gone, key, s[0].seen);
    }
  }

  lemma {:induction false} RankLast(s: seq<Flow>, now: int)
    requires s != [] && Ordered(s, now)
    ensures Rank(s, s[|s| - 1].key) == |s| - 1
    ensures Find(s, s[|s| - 1].key) == Some(s[|s| - 1])
    ensures Without(s, s[|s| - 1].key) == s[..|s| - 1]
  {
    OrderedMeans(s, now);
    WithoutAt(s, |s| - 1);
    RankAt(s, |s| - 1);
  }

  lemma {:induction false} RankAt(s: seq<Flow>, i: nat)
    requires Distinct(s) && i < |s|
    ensures Rank(s, s[i].key) == i
  {
    if i > 0 {
      RankAt(s[1..], i - 1);
    }
  }
}
