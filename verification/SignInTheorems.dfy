/** What every run of the sign-in handlers guarantees about the tunnels it publishes. */
module SignInTheorems {
  import opened Wrappers
  import opened SignInSpec

  /** A handler at a moment. */
  datatype Call = Call(event: Event, at: int)

  /** The calls are legal: the clock does not go back, and fresh identifiers are fresh. */
  ghost predicate Legal(calls: seq<Call>, ttl: int)
    decreases |calls|, 0
  {
    calls != [] ==>
      var before, call := calls[..|calls| - 1], calls[|calls| - 1];
      && Legal(before, ttl) && Fresh(Run(before, ttl), call.event)
      && (before != [] ==> before[|before| - 1].at <= call.at)
  }

  /** The state after all the calls. */
  ghost function Run(calls: seq<Call>, ttl: int): (y: System)
    requires Legal(calls, ttl)
    ensures Ok(y)
    decreases |calls|, 1
  {
    if calls == [] then START
    else
      var before, call := calls[..|calls| - 1], calls[|calls| - 1];
      StepOk(Run(before, ttl), call.event, call.at, ttl);
      Step(Run(before, ttl), call.event, call.at, ttl)
  }

  lemma {:induction false} LegalPrefix(calls: seq<Call>, ttl: int, i: nat)
    requires Legal(calls, ttl) && i <= |calls|
    ensures Legal(calls[..i], ttl)
    decreases |calls|
  {
    if i == |calls| {
      assert calls[..i] == calls;
    } else {
      LegalPrefix(calls[..|calls| - 1], ttl, i);
      assert calls[..|calls| - 1][..i] == calls[..i];
    }
  }

  /** A sign-in is for the row the reply names, with the username stored there. */
  lemma SignedInRow(t: Sessions, r: Reply, now: int, ttl: int)
    requires Sound(t)
    ensures match HandleAuth(t, r, now, ttl).1
            case SignedIn(username, deviceID, id, token) =>
              && id == r.opaque_ && id in t.rows && t.rows[id].username == username
              && r.verified == Some(deviceID) && token == r.freshToken
            case _ => true
  {
  }

  /** At call i a row signed in with the username stored there and the device the verifier returned for it, and the
      token was minted for that. */
  ghost predicate MintedAt(calls: seq<Call>, ttl: int, i: int, token: string, g: Grant)
    requires Legal(calls, ttl)
  {
    && 0 <= i < |calls| && Legal(calls[..i], ttl) && calls[i].event.Auth?
    && var t, r := Run(calls[..i], ttl).table, calls[i].event.reply;
       && r.opaque_ == g.id && r.freshToken == token && r.verified == Some(g.deviceID)
       && g.id in t.rows && t.rows[g.id].username == g.username
       && HandleAuth(t, r, calls[i].at, ttl).1 == SignedIn(g.username, g.deviceID, g.id, token)
  }

  /** Only a sign-in mints a token, and none is minted twice. */
  lemma NewlyMinted(y: System, e: Event, now: int, ttl: int, token: string)
    requires Ok(y) && Fresh(y, e) && token in Step(y, e, now, ttl).minted
    ensures token in y.minted ==> Step(y, e, now, ttl).minted[token] == y.minted[token]
    ensures token !in y.minted ==>
              var g := Step(y, e, now, ttl).minted[token];
              && e.Auth? && e.reply.opaque_ == g.id && e.reply.freshToken == token
              && e.reply.verified == Some(g.deviceID)
              && g.id in y.table.rows && y.table.rows[g.id].username == g.username
              && HandleAuth(y.table, e.reply, now, ttl).1 == SignedIn(g.username, g.deviceID, g.id, token)
  {
    if e.Auth? {
      SignedInRow(y.table, e.reply, now, ttl);
    }
    hide HandleAuth;
  }

  lemma {:induction false} MintedOnce(calls: seq<Call>, ttl: int, token: string)
    requires Legal(calls, ttl) && token in Run(calls, ttl).minted
    ensures exists i :: MintedAt(calls, ttl, i, token, Run(calls, ttl).minted[token])
    decreases |calls|
  {
    hide Step, Ok, Fresh, HandleAuth;
    if calls != [] {
      var n := |calls| - 1;
      var before, call := calls[..n], calls[n];
      var g := Run(calls, ttl).minted[token];
      NewlyMinted(Run(before, ttl), call.event, call.at, ttl, token);
      if token in Run(before, ttl).minted {
        MintedOnce(before, ttl, token);
        var i :| MintedAt(before, ttl, i, token, g);
        assert before[..i] == calls[..i];
        assert MintedAt(calls, ttl, i, token, g);
      } else {
        assert MintedAt(calls, ttl, n, token, g);
      }
    }
  }

  /** Any tunnel a connect publishes belongs to a row that is not expired and whose token is the one presented; and
      that token was minted in some earlier call, when this row signed in with the username it still has and the
      verifier returned, for that username, the device the tunnel is for. */
  lemma EveryTunnelVerified(calls: seq<Call>, ttl: int, cookie: string, now: int)
    requires Legal(calls, ttl)
    ensures var y := Run(calls, ttl);
            match HandleConnect(y.table, cookie, true, now, ttl).1
            case Connected(tunnel) =>
              && tunnel.id in y.table.rows
              && var row := y.table.rows[tunnel.id];
                 && row.token == cookie != "" && now <= row.expires && tunnel.deviceID == row.deviceID
                 && exists i :: MintedAt(calls, ttl, i, cookie, Grant(tunnel.id, row.username, tunnel.deviceID))
            case _ => true
  {
    var y := Run(calls, ttl);
    FoundIsMinted(y, cookie, now);
    if LookupToken(y.table, cookie, now).1.Some? {
      MintedOnce(calls, ttl, cookie);
    }
  }

  // Tokens that have been replaced

  predicate Replaced(y: System, token: string) {
    token in y.minted && y.minted[token].id in y.table.rows && y.table.rows[y.minted[token].id].token != token
  }

  lemma ReplacedStays(y: System, e: Event, now: int, ttl: int, token: string)
    requires Ok(y) && Fresh(y, e) && Replaced(y, token)
    ensures Replaced(Step(y, e, now, ttl), token)
  {
    if e.Connect? {
      FoundIsMinted(y, e.cookie, now);
    }
  }

  lemma {:induction false} ReplacedForEver(calls: seq<Call>, ttl: int, i: nat, token: string)
    requires Legal(calls, ttl) && i <= |calls| && Legal(calls[..i], ttl) && Replaced(Run(calls[..i], ttl), token)
    ensures Replaced(Run(calls, ttl), token)
    decreases |calls|
  {
    hide Step, Ok, Fresh, Replaced;
    if i == |calls| {
      assert calls[..i] == calls;
    } else {
      var n := |calls| - 1;
      assert calls[..n][..i] == calls[..i];
      ReplacedForEver(calls[..n], ttl, i, token);
      ReplacedStays(Run(calls[..n], ttl), calls[n].event, calls[n].at, ttl, token);
    }
  }

  /** The token of an earlier promotion never resolves again, although its key stays in the table and leads to the
      row. */
  lemma ReplacedNeverResolves(calls: seq<Call>, ttl: int, i: nat, token: string, now: int)
    requires Legal(calls, ttl) && i <= |calls| && Legal(calls[..i], ttl) && Replaced(Run(calls[..i], ttl), token)
    ensures LookupToken(Run(calls, ttl).table, token, now).1 == None
  {
    ReplacedForEver(calls, ttl, i, token);
    FoundIsMinted(Run(calls, ttl), token, now);
  }

  /** Signing in again on a row replaces its token; the old key is left behind. */
  lemma SecondPromotion(y: System, r: Reply, now: int, ttl: int)
    requires Ok(y) && Fresh(y, Auth(r)) && HandleAuth(y.table, r, now, ttl).1.SignedIn?
    requires y.table.rows[r.opaque_].token in y.table.byToken
    ensures var old_, y' := y.table.rows[r.opaque_].token, Step(y, Auth(r), now, ttl);
            old_ != "" ==> Replaced(y', old_) && old_ in y'.table.byToken && y'.table.byToken[old_] == r.opaque_
  {
    SignedInRow(y.table, r, now, ttl);
    assert RowOk(y, r.opaque_);
    assert KeyOk(y, y.table.rows[r.opaque_].token);
  }

  /** One more legal call, and the state after it. */
  lemma After(calls: seq<Call>, ttl: int, e: Event, at: int)
    requires Legal(calls, ttl) && Fresh(Run(calls, ttl), e) && (calls != [] ==> calls[|calls| - 1].at <= at)
    ensures Legal(calls + [Call(e, at)], ttl)
    ensures Run(calls + [Call(e, at)], ttl) == Step(Run(calls, ttl), e, at, ttl)
  {
    assert (calls + [Call(e, at)])[..|calls|] == calls;
  }

  // A run on which it happens: an init, a username, a password, and a password again

  const NAMED := Reply("row", "user", "", None, "other", "unused")
  const FIRST := Reply("row", "", "secret", Some("device"), "other", "first")
  const SECOND := FIRST.(freshToken := "second")

  /** The state before the second sign-in. */
  const ONCE := System(Sessions(map["row" := Row("first", "user", "device", 300)], {"row"}, map["first" := "row"]),
                       map["first" := Grant("row", "user", "device")])

  lemma FirstSignIn() returns (calls: seq<Call>)
    ensures Legal(calls, 300) && Run(calls, 300) == ONCE && calls != [] && calls[|calls| - 1].at == 0
  {
    var y1 := System(Sessions(map["row" := Row("", "", "", 300)], {"row"}, map[]), map[]);
    var y2 := System(Sessions(map["row" := Row("", "user", "", 300)], {"row"}, map[]), map[]);
    assert Step(START, Init("row"), 0, 300) == y1;
    assert Step(y1, Auth(NAMED), 0, 300) == y2;
    assert Step(y2, Auth(FIRST), 0, 300) == ONCE;
    hide Step;
    After([], 300, Init("row"), 0);
    calls := [] + [Call(Init("row"), 0)];
    After(calls, 300, Auth(NAMED), 0);
    calls := calls + [Call(Auth(NAMED), 0)];
    After(calls, 300, Auth(FIRST), 0);
    calls := calls + [Call(Auth(FIRST), 0)];
  }

  /** The state after it. */
  lemma SecondSignIn(y: System)
    requires y == Step(ONCE, Auth(SECOND), 0, 300)
    ensures Replaced(y, "first") && "first" in y.table.byToken && y.table.byToken["first"] == "row"
    ensures Sound(y.table) && LookupToken(y.table, "second", 0).1 == Some("row")
  {
    assert "second" != "first" by {
      assert "second"[0] != "first"[0];
    }
    assert y == System(Sessions(map["row" := Row("second", "user", "device", 300)], {"row"},
                                map["first" := "row", "second" := "row"]),
                       map["first" := Grant("row", "user", "device"), "second" := Grant("row", "user", "device")]);
    hide Step;
    assert Leads(y.table, "second", "second");
  }

  lemma SecondPromotionExists() returns (calls: seq<Call>)
    ensures Legal(calls, 300)
    ensures var y := Run(calls, 300);
            && Replaced(y, "first") && "first" in y.table.byToken && y.table.byToken["first"] == "row"
            && LookupToken(y.table, "second", 0).1 == Some("row")
  {
    var before := FirstSignIn();
    assert "second" != "first" by {
      assert "second"[0] != "first"[0];
    }
    SecondSignIn(Step(ONCE, Auth(SECOND), 0, 300));
    hide Step, LookupToken, Replaced;
    After(before, 300, Auth(SECOND), 0);
    calls := before + [Call(Auth(SECOND), 0)];
  }

  // Rows that have expired

  lemma ExpiredStays(y: System, e: Event, now: int, ttl: int, id: string)
    requires Ok(y) && Fresh(y, e) && id in y.table.rows && Expired(y.table, id, now)
    ensures id in Step(y, e, now, ttl).table.rows
    ensures Step(y, e, now, ttl).table.rows[id].expires == y.table.rows[id].expires
  {
    match e
    case Init(_) =>
    case Auth(r) =>
    case Connect(cookie, _) => FoundIsMinted(y, cookie, now);
  }

  lemma {:induction false} ExpiredForEver(calls: seq<Call>, ttl: int, i: nat, id: string)
    requires Legal(calls, ttl) && i < |calls| && Legal(calls[..i], ttl)
    requires id in Run(calls[..i], ttl).table.rows && Expired(Run(calls[..i], ttl).table, id, calls[i].at)
    ensures id in Run(calls, ttl).table.rows
    ensures Expired(Run(calls, ttl).table, id, calls[|calls| - 1].at)
    decreases |calls|
  {
    hide Step, Ok, Fresh;
    var n := |calls| - 1;
    var before := calls[..n];
    if i < n {
      assert before[..i] == calls[..i];
      ExpiredForEver(before, ttl, i, id);
    }
    ExpiredStays(Run(before, ttl), calls[n].event, calls[n].at, ttl, id);
  }

  /** A row found expired once is never published again: nothing that is left of it in the table revives it. */
  lemma ExpiredNeverPublished(calls: seq<Call>, ttl: int, i: nat, id: string, cookie: string, now: int)
    requires Legal(calls, ttl) && i < |calls| && Legal(calls[..i], ttl) && calls[|calls| - 1].at <= now
    requires id in Run(calls[..i], ttl).table.rows && Expired(Run(calls[..i], ttl).table, id, calls[i].at)
    ensures match HandleConnect(Run(calls, ttl).table, cookie, true, now, ttl).1
            case Connected(tunnel) => tunnel.id != id
            case _ => true
  {
    ExpiredForEver(calls, ttl, i, id);
    hide Legal, Run, Step, Ok;
    FoundIsMinted(Run(calls, ttl), cookie, now);
  }
}
