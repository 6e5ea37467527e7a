/** What the sign-in handlers answer, and what they leave in the table, for every request and every state of it. */
module SignInLaws {
  import opened Wrappers
  import opened SignInSpec

  /** The cookie is the token of row id, and a key leads there. */
  ghost predicate Holds(t: Sessions, id: string, cookie: string) {
    cookie != "" && id in t.rows && t.rows[id].token == cookie && exists k :: k in t.byToken && t.byToken[k] == id
  }

  lemma HoldsLeads(y: System, id: string, cookie: string)
    requires Ok(y) && Holds(y.table, id, cookie)
    ensures exists k :: Leads(y.table, k, cookie)
    ensures forall k :: Leads(y.table, k, cookie) ==> y.table.byToken[k] == id
  {
    var k :| k in y.table.byToken && y.table.byToken[k] == id;
    assert Leads(y.table, k, cookie);
    assert RowOk(y, id);
    forall k' | Leads(y.table, k', cookie)
      ensures y.table.byToken[k'] == id
    {
      assert RowOk(y, y.table.byToken[k']);
    }
  }

  /** A connect, exactly: with the token of a row that has not expired it publishes a tunnel for the row's device,
      if that resolves, and the row then expires ttl later; the table otherwise stays as it was. The moment of
      expiry is not too late, anything after it is, and takes the row out of both maps. Any other cookie is refused. */
  lemma ConnectExact(y: System, cookie: string, resolved: bool, now: int, ttl: int)
    requires Ok(y)
    ensures forall id :: Holds(y.table, id, cookie) ==>
              var row, r := y.table.rows[id], HandleConnect(y.table, cookie, resolved, now, ttl);
              if now > row.expires then
                r == (Sessions(y.table.rows, y.table.byOpaque - {id}, y.table.byToken - {cookie}), Unauthorized)
              else if !resolved then r == (y.table, Unresolved)
              else
                var refreshed := Row(cookie, row.username, row.deviceID, now + ttl);
                && r.1 == Connected(Published(id, row.deviceID))
                && r.0 == Sessions(y.table.rows[id := refreshed], y.table.byOpaque, y.table.byToken)
    ensures (forall id :: !Holds(y.table, id, cookie)) ==>
              HandleConnect(y.table, cookie, resolved, now, ttl) == (y.table, Unauthorized)
  {
    forall id | Holds(y.table, id, cookie)
      ensures var row, r := y.table.rows[id], HandleConnect(y.table, cookie, resolved, now, ttl);
              if now > row.expires then
                r == (Sessions(y.table.rows, y.table.byOpaque - {id}, y.table.byToken - {cookie}), Unauthorized)
              else if !resolved then r == (y.table, Unresolved)
              else
                var refreshed := Row(cookie, row.username, row.deviceID, now + ttl);
                && r.1 == Connected(Published(id, row.deviceID))
                && r.0 == Sessions(y.table.rows[id := refreshed], y.table.byOpaque, y.table.byToken)
    {
      HoldsLeads(y, id, cookie);
    }
    if cookie != "" {
      if k :| Leads(y.table, k, cookie) {
        assert Holds(y.table, y.table.byToken[k], cookie);
      }
    }
  }

  /** The row of an opaque id, while it lives. */
  predicate Lives(t: Sessions, id: string, now: int)
    requires Sound(t)
  {
    id in t.byOpaque && now <= t.rows[id].expires
  }

  /** Only a row that lives takes a username, and nothing but that changes. */
  lemma StashExact(t: Sessions, id: string, username: string, now: int)
    requires Sound(t)
    ensures Stash(t, id, username, now) ==
              if !Lives(t, id, now) then t
              else
                var row := t.rows[id];
                t.(rows := t.rows[id := Row(row.token, username, row.deviceID, row.expires)])
  {
  }

  /** The table without a row that is found expired. */
  function Reaped(t: Sessions, id: string): Sessions
    requires Sound(t)
  {
    if id !in t.byOpaque then t
    else
      Sessions(t.rows, t.byOpaque - {id},
               if t.rows[id].token == "" then t.byToken else t.byToken - {t.rows[id].token})
  }

  /** The table with another row that has not signed in. */
  function WithNew(t: Sessions, id: string, username: string, expires: int): Sessions
  {
    Sessions(t.rows[id := Row("", username, "", expires)], t.byOpaque + {id}, t.byToken)
  }

  /** An auth reply, exactly. A row that lives and has a username signs in with a password that verifies, under that
      username whatever the reply says, and gets the fresh token and ttl more; with another password it is refused,
      and with none prompted, and nothing changes. A row that lives and has none gets the username of the reply, if
      there is one. Everything else makes a row, with the username of the reply if its own did not live (and the new
      one is not born expired), and prompts. */
  lemma AuthExact(t: Sessions, r: Reply, now: int, ttl: int)
    requires Sound(t)
    ensures var id, a := r.opaque_, HandleAuth(t, r, now, ttl);
            if !Lives(t, id, now) then
              a == (WithNew(Reaped(t, id), r.freshId, if ttl < 0 then "" else r.username, now + ttl), Prompted)
            else
              var row := t.rows[id];
              if row.username == "" && r.username == "" then a == (WithNew(t, r.freshId, "", now + ttl), Prompted)
              else if row.username == "" then
                a == (t.(rows := t.rows[id := Row(row.token, r.username, row.deviceID, row.expires)]), Prompted)
              else if r.password == "" then a == (t, Prompted)
              else if r.verified == None then a == (t, Refused)
              else
                var promoted := Row(r.freshToken, row.username, r.verified.value, now + ttl);
                && a.1 == SignedIn(row.username, r.verified.value, id, r.freshToken)
                && a.0 == Sessions(t.rows[id := promoted], t.byOpaque, t.byToken[r.freshToken := id])
  {
    var t' := LookupOpaque(t, r.opaque_, now).0;
    Stashed(t', r.freshId, r.username, now, ttl);
    assert r.username == "" ==> NewOpaque(t', r.freshId, now, ttl) == WithNew(t', r.freshId, "", now + ttl);
  }

  /** What a run starts with is a row without a name, found until ttl is over. */
  lemma InitExact(t: Sessions, id: string, now: int, ttl: int, later: int)
    requires Sound(t)
    ensures NewOpaque(t, id, now, ttl) == WithNew(t, id, "", now + ttl)
    ensures Sound(NewOpaque(t, id, now, ttl)) && (Lives(NewOpaque(t, id, now, ttl), id, later) <==> later <= now + ttl)
    ensures LookupOpaque(NewOpaque(t, id, now, ttl), id, later).1 == if later <= now + ttl then Some(id) else None
  {
  }

  /** A token that was just minted connects, until ttl is over, to the device the verifier named; and so does each
      time it has connected, until ttl after that. */
  lemma TokenConnects(y: System, r: Reply, now: int, ttl: int, later: int)
    requires Ok(y) && Fresh(y, Auth(r)) && HandleAuth(y.table, r, now, ttl).1.SignedIn?
    ensures var y' := Step(y, Auth(r), now, ttl);
            && Ok(y')
            && var c := HandleConnect(y'.table, r.freshToken, true, later, ttl);
               if later <= now + ttl then
                 && c.1 == Connected(Published(r.opaque_, r.verified.value))
                 && r.opaque_ in c.0.rows && c.0.rows[r.opaque_].expires == later + ttl
                 && Holds(c.0, r.opaque_, r.freshToken)
               else c.1 == Unauthorized
  {
    StepOk(y, Auth(r), now, ttl);
    AuthExact(y.table, r, now, ttl);
    hide HandleAuth, HandleConnect, LookupToken, LookupOpaque, Ok;
    var y' := Step(y, Auth(r), now, ttl);
    assert y'.table.byToken[r.freshToken] == r.opaque_;
    assert Holds(y'.table, r.opaque_, r.freshToken);
    ConnectExact(y', r.freshToken, true, later, ttl);
  }
}
