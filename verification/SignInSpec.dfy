/** The sign-in state machine: what the session table holds and what each handler does to it (internal/cstp/cookie.go,
    server.go, connect.go), and what every run of the handlers keeps. */
module SignInSpec {
  import opened Wrappers

  /** A row, under its opaque id; its token is empty until it is promoted. */
  datatype Row = Row(token: string, username: string, deviceID: string, expires: int)

  /** All rows there ever were, those reachable by their opaque id, and the rows the token keys lead to. */
  datatype Sessions = Sessions(rows: map<string, Row>, byOpaque: set<string>, byToken: map<string, string>)

  const NONE := Sessions(map[], {}, map[])

  predicate Sound(t: Sessions) {
    && (forall id :: id in t.byOpaque ==> id in t.rows)
    && (forall k :: k in t.byToken ==> t.byToken[k] in t.rows)
  }

  // The table

  function NewOpaque(t: Sessions, id: string, now: int, ttl: int): Sessions
  {
    t.(rows := t.rows[id := Row("", "", "", now + ttl)], byOpaque := t.byOpaque + {id})
  }

  function Delete(t: Sessions, id: string): Sessions
    requires id in t.rows
  {
    var token := t.rows[id].token;
    t.(byOpaque := t.byOpaque - {id}, byToken := if token != "" then t.byToken - {token} else t.byToken)
  }

  predicate Expired(t: Sessions, id: string, now: int)
    requires id in t.rows
  {
    now > t.rows[id].expires
  }

  /** A row that was found, or that is reaped because it has expired. */
  function Fetch(t: Sessions, id: string, now: int): (Sessions, Option<string>)
    requires id in t.rows
  {
    if Expired(t, id, now) then (Delete(t, id), None) else (t, Some(id))
  }

  function LookupOpaque(t: Sessions, id: string, now: int): (Sessions, Option<string>)
    requires Sound(t)
  {
    if id !in t.byOpaque then (t, None) else Fetch(t, id, now)
  }

  /** Some token key leads to the row, and the row's own token is the one presented: the key itself is not compared. */
  ghost predicate Leads(t: Sessions, k: string, token: string)
    requires Sound(t)
  {
    k in t.byToken && t.rows[t.byToken[k]].token == token
  }

  ghost function LookupToken(t: Sessions, token: string, now: int): (Sessions, Option<string>)
    requires Sound(t)
  {
    if token != "" && exists k :: Leads(t, k, token) then
      var k :| Leads(t, k, token);
      Fetch(t, t.byToken[k], now)
    else (t, None)
  }

  function Stash(t: Sessions, id: string, username: string, now: int): Sessions
    requires Sound(t)
  {
    if id !in t.byOpaque || Expired(t, id, now) then t else t.(rows := t.rows[id := t.rows[id].(username := username)])
  }

  function Promote(t: Sessions, id: string, username: string, deviceID: string, token: string, now: int,
      ttl: int): Sessions
  {
    t.(rows := t.rows[id := Row(token, username, deviceID, now + ttl)], byToken := t.byToken[token := id])
  }

  function Touch(t: Sessions, id: string, now: int, ttl: int): Sessions
    requires id in t.rows
  {
    t.(rows := t.rows[id := t.rows[id].(expires := now + ttl)])
  }

  // The handlers

  /** What an auth reply carries, and what the verifier and the random source answer to it. */
  datatype Reply = Reply(opaque_: string, username: string, password: string, verified: Option<string>,
      freshId: string, freshToken: string)

  /** What was verified, in this step. */
  datatype AuthOutcome = Prompted | Refused | SignedIn(username: string, deviceID: string, id: string, token: string)

  function HandleAuth(t: Sessions, r: Reply, now: int, ttl: int): (Sessions, AuthOutcome)
    requires Sound(t)
  {
    var (t', found) := LookupOpaque(t, r.opaque_, now);
    if found.None? || t'.rows[found.value].username == "" then
      (if r.username == "" then NewOpaque(t', r.freshId, now, ttl)
       else if found.None? then Stash(NewOpaque(t', r.freshId, now, ttl), r.freshId, r.username, now)
       else Stash(t', r.opaque_, r.username, now),
       Prompted)
    else if r.password == "" then (t', Prompted)
    else
      var username := t'.rows[found.value].username;
      match r.verified
      case None => (t', Refused)
      case Some(deviceID) =>
        (Promote(t', r.opaque_, username, deviceID, r.freshToken, now, ttl),
            SignedIn(username, deviceID, r.opaque_, r.freshToken))
  }

  /** A tunnel that was published: the row it was published for and that row's device. */
  datatype Published = Published(id: string, deviceID: string)

  datatype ConnectOutcome = Unauthorized | Unresolved | Connected(tunnel: Published)

  /** Resolving the device and taking over the connection may fail; a row that connects is refreshed. */
  ghost function HandleConnect(t: Sessions, cookie: string, resolved: bool, now: int, ttl: int)
    : (Sessions, ConnectOutcome)
    requires Sound(t)
  {
    var (t', found) := LookupToken(t, cookie, now);
    if found.None? then (t', Unauthorized)
    else if !resolved then (t', Unresolved)
    else (Touch(t', found.value, now, ttl), Connected(Published(found.value, t'.rows[found.value].deviceID)))
  }

  // Runs

  datatype Event =
    | Init(freshId: string)
    | Auth(reply: Reply)
    | Connect(cookie: string, resolved: bool)

  /** What a token was minted for: the row that signed in, the username stored there, and the device the verifier
      returned. */
  datatype Grant = Grant(id: string, username: string, deviceID: string)

  /** The table, and the history of what each token was minted for. */
  datatype System = System(table: Sessions, minted: map<string, Grant>)

  const START := System(NONE, map[])

  ghost function Step(y: System, e: Event, now: int, ttl: int): System
    requires Sound(y.table)
  {
    match e
    case Init(id) => y.(table := NewOpaque(y.table, id, now, ttl))
    case Auth(r) =>
      var (t, outcome) := HandleAuth(y.table, r, now, ttl);
      match outcome {
        case SignedIn(username, deviceID, id, token) =>
          System(t, y.minted[token := Grant(id, username, deviceID)])
        case _ => y.(table := t)
      }
    case Connect(cookie, resolved) => y.(table := HandleConnect(y.table, cookie, resolved, now, ttl).0)
  }

  /** Fresh identifiers are fresh. */
  predicate Fresh(y: System, e: Event) {
    match e
    case Init(id) => id !in y.table.rows
    case Auth(r) => r.freshId !in y.table.rows && r.freshToken != "" && r.freshToken !in y.minted
    case Connect(_, _) => true
  }

  /** A row with a token has the username and the device its token was minted for, and it is the row. */
  predicate RowOk(y: System, id: string)
    requires id in y.table.rows
  {
    var r := y.table.rows[id];
    r.token != "" ==> r.username != "" && r.token in y.minted && y.minted[r.token] == Grant(id, r.username, r.deviceID)
  }

  /** Every token key was minted for the row it leads to, which has had a token ever since. */
  predicate KeyOk(y: System, k: string)
    requires k in y.table.byToken && y.table.byToken[k] in y.table.rows
  {
    k in y.minted && y.minted[k].id == y.table.byToken[k] && y.table.rows[y.table.byToken[k]].token != ""
  }

  predicate Ok(y: System) {
    && Sound(y.table)
    && (forall id :: id in y.table.rows ==> RowOk(y, id))
    && (forall k :: k in y.table.byToken ==> KeyOk(y, k))
    && (forall k :: k in y.minted ==> y.minted[k].id in y.table.rows)
  }

  /** Whatever key leads there, only the row the token was minted for is found. */
  lemma FoundIsMinted(y: System, token: string, now: int)
    requires Ok(y)
    ensures var (t, found) := LookupToken(y.table, token, now);
            && (found.Some? ==>
                  && found.value in y.table.rows && y.table.rows[found.value].token == token
                  && token in y.minted
                  && y.minted[token] ==
                        Grant(found.value, y.table.rows[found.value].username, y.table.rows[found.value].deviceID)
                  && !Expired(y.table, found.value, now) && t == y.table)
            && t.rows == y.table.rows
  {
    if token != "" && exists k :: Leads(y.table, k, token) {
      var k :| Leads(y.table, k, token);
      assert KeyOk(y, k);
      assert forall k' :: Leads(y.table, k', token) ==> RowOk(y, y.table.byToken[k']);
    }
  }

  lemma FetchOk(y: System, id: string, now: int)
    requires Ok(y) && id in y.table.rows
    ensures Ok(y.(table := Fetch(y.table, id, now).0))
  {
    var y' := y.(table := Fetch(y.table, id, now).0);
    assert forall i :: i in y'.table.rows ==> RowOk(y, i);
    assert forall k :: k in y'.table.byToken ==> KeyOk(y, k);
  }

  lemma LookupTokenOk(y: System, token: string, now: int)
    requires Ok(y)
    ensures Ok(y.(table := LookupToken(y.table, token, now).0))
  {
    if token != "" && exists k :: Leads(y.table, k, token) {
      forall k | Leads(y.table, k, token)
        ensures Ok(y.(table := Fetch(y.table, y.table.byToken[k], now).0))
      {
        FetchOk(y, y.table.byToken[k], now);
      }
    }
  }

  /** A row changed in what is not its token. */
  lemma UpdateOk(y: System, id: string, row: Row)
    requires Ok(y) && row.token == (if id in y.table.rows then y.table.rows[id].token else "")
    requires row.token != "" ==> row.username == y.table.rows[id].username && row.deviceID == y.table.rows[id].deviceID
    ensures Ok(y.(table := y.table.(rows := y.table.rows[id := row])))
    ensures Ok(y.(table := y.table.(rows := y.table.rows[id := row], byOpaque := y.table.byOpaque + {id})))
  {
    var y' := y.(table := y.table.(rows := y.table.rows[id := row]));
    assert forall i :: i in y.table.rows ==> RowOk(y, i);
    assert forall k :: k in y.table.byToken ==> KeyOk(y, k);
    assert forall i :: i in y'.table.rows ==> RowOk(y', i);
    assert forall k :: k in y'.table.byToken ==> KeyOk(y', k);
    var y2 := y.(table := y.table.(rows := y.table.rows[id := row], byOpaque := y.table.byOpaque + {id}));
    assert forall i :: i in y2.table.rows ==> RowOk(y2, i);
    assert forall k :: k in y2.table.byToken ==> KeyOk(y2, k);
  }

  lemma PromoteOk(y: System, id: string, username: string, deviceID: string, token: string, now: int, ttl: int)
    requires Ok(y) && id in y.table.rows && username != "" && token != "" && token !in y.minted
    ensures Ok(System(Promote(y.table, id, username, deviceID, token, now, ttl),
            y.minted[token := Grant(id, username, deviceID)]))
  {
    var y' := System(Promote(y.table, id, username, deviceID, token, now, ttl),
        y.minted[token := Grant(id, username, deviceID)]);
    forall i | i in y'.table.rows
      ensures RowOk(y', i)
    {
      assert RowOk(y, i);
    }
    forall k | k in y'.table.byToken
      ensures KeyOk(y', k)
    {
      if k != token {
        assert KeyOk(y, k);
      }
    }
  }

  lemma StepOk(y: System, e: Event, now: int, ttl: int)
    requires Ok(y) && Fresh(y, e)
    ensures Ok(Step(y, e, now, ttl))
  {
    hide Ok, RowOk, KeyOk;
    SoundOf(y);
    match e
    case Init(id) => UpdateOk(y, id, Row("", "", "", now + ttl));
    case Auth(r) => AuthOk(y, r, now, ttl);
    case Connect(cookie, resolved) =>
      LookupTokenOk(y, cookie, now);
      FoundIsMinted(y, cookie, now);
      var (t, found) := LookupToken(y.table, cookie, now);
      if found.Some? && resolved {
        UpdateOk(y, found.value, y.table.rows[found.value].(expires := now + ttl));
      }
  }

  lemma SoundOf(y: System)
    requires Ok(y)
    ensures Sound(y.table)
  {
  }

  lemma AuthOk(y: System, r: Reply, now: int, ttl: int)
    requires Ok(y) && Fresh(y, Auth(r))
    ensures Ok(Step(y, Auth(r), now, ttl))
  {
    SoundOf(y);
    var t := LookupOpaque(y.table, r.opaque_, now);
    var y' := y.(table := t.0);
    if r.opaque_ in y.table.byOpaque {
      FetchOk(y, r.opaque_, now);
      UnnamedHasNoToken(y', r.opaque_);
    }
    hide Ok, RowOk, KeyOk;
    if t.1.None? || t.0.rows[t.1.value].username == "" {
      if t.1.None? || r.username == "" {
        UpdateOk(y', r.freshId, Row("", "", "", now + ttl));
        UpdateOk(y', r.freshId, Row("", r.username, "", now + ttl));
      } else {
        UpdateOk(y', r.opaque_, t.0.rows[r.opaque_].(username := r.username));
      }
      Stashed(t.0, r.freshId, r.username, now, ttl);
    } else if r.password != "" && r.verified.Some? {
      PromoteOk(y', r.opaque_, t.0.rows[r.opaque_].username, r.verified.value, r.freshToken, now, ttl);
    }
  }

  lemma UnnamedHasNoToken(y: System, id: string)
    requires Ok(y) && id in y.table.rows
    ensures y.table.rows[id].username == "" ==> y.table.rows[id].token == ""
  {
    assert RowOk(y, id);
  }

  /** Stashing a username in a row just made. */
  lemma Stashed(t: Sessions, id: string, username: string, now: int, ttl: int)
    requires Sound(t)
    ensures var made := NewOpaque(t, id, now, ttl);
            Stash(made, id, username, now) ==
              if ttl < 0 then made
              else t.(rows := t.rows[id := Row("", username, "", now + ttl)], byOpaque := t.byOpaque + {id})
  {
    var made := NewOpaque(t, id, now, ttl);
    assert made.rows[id := made.rows[id].(username := username)] == t.rows[id := Row("", username, "", now + ttl)];
  }
}
