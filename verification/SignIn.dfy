/** The in-memory session table and the handlers over it, updated in place (internal/cstp/cookie.go, server.go,
    connect.go). */
module SignIn {
  import opened Wrappers
  import opened SignInSpec

  class Session {
    const opaqueID: string
    var token: string
    var username: string
    var deviceID: string
    var expiresAt: int

    constructor (opaqueID: string, expiresAt: int)
      ensures this.opaqueID == opaqueID && View() == Row("", "", "", expiresAt)
    {
      this.opaqueID, token, username, deviceID, this.expiresAt := opaqueID, "", "", "", expiresAt;
    }

    function View(): Row
      reads this
    {
      Row(token, username, deviceID, expiresAt)
    }
  }

  // Maps to rows

  /** The ids of the rows the token keys lead to. */
  ghost function Ids(byToken: map<string, Session>): map<string, string>
  {
    map k | k in byToken :: byToken[k].opaqueID
  }

  lemma IdsMinus(m: map<string, Session>, k: string)
    ensures Ids(m - {k}) == Ids(m) - {k}
  {
  }

  lemma IdsPut(m: map<string, Session>, k: string, s: Session)
    ensures Ids(m[k := s]) == Ids(m)[k := s.opaqueID]
  {
  }

  ghost function Rows(made: map<string, Session>): map<string, Row>
    reads made.Values
  {
    map id | id in made :: made[id].View()
  }

  lemma RowsPut(made: map<string, Session>, id: string, s: Session)
    ensures Rows(made[id := s]) == Rows(made)[id := s.View()]
  {
  }

  lemma RowsAt(made: map<string, Session>, id: string)
    requires id in made
    ensures id in Rows(made) && Rows(made)[id] == made[id].View()
  {
  }

  /** Every row is made under its id, and both maps lead to rows that were made. */
  ghost predicate Kept(made: map<string, Session>, byOpaque: map<string, Session>, byToken: map<string, Session>) {
    && (forall id :: id in made ==> made[id].opaqueID == id)
    && (forall id :: id in byOpaque ==> id in made && made[id] == byOpaque[id])
    && (forall k :: k in byToken ==> byToken[k].opaqueID in made && made[byToken[k].opaqueID] == byToken[k])
  }

  /** A token belongs to one row only. */
  ghost predicate Unique(made: map<string, Session>)
    reads made.Values
  {
    forall a, b :: a in made && b in made && made[a].token == made[b].token != "" ==> a == b
  }

  lemma KeptPut(made: map<string, Session>, byOpaque: map<string, Session>, byToken: map<string, Session>, id: string,
      s: Session)
    requires Kept(made, byOpaque, byToken) && s.opaqueID == id && id !in made
    ensures Kept(made[id := s], byOpaque[id := s], byToken) && byOpaque[id := s].Keys == byOpaque.Keys + {id}
  {
  }

  lemma UniquePut(made: map<string, Session>, id: string, s: Session)
    requires Unique(made) && s.token == ""
    ensures Unique(made[id := s])
  {
  }

  lemma KeptToken(made: map<string, Session>, byOpaque: map<string, Session>, byToken: map<string, Session>,
      token: string, s: Session)
    requires Kept(made, byOpaque, byToken) && s.opaqueID in made && made[s.opaqueID] == s
    ensures Kept(made, byOpaque, byToken[token := s])
  {
  }

  lemma KeptDelete(made: map<string, Session>, byOpaque: map<string, Session>, byToken: map<string, Session>,
      id: string, token: string)
    requires Kept(made, byOpaque, byToken)
    ensures Kept(made, byOpaque - {id}, byToken) && Kept(made, byOpaque - {id}, byToken - {token})
    ensures (byOpaque - {id}).Keys == byOpaque.Keys - {id}
  {
  }

  lemma KeptOpaque(made: map<string, Session>, byOpaque: map<string, Session>, byToken: map<string, Session>,
      id: string)
    requires Kept(made, byOpaque, byToken) && id in byOpaque
    ensures id in made && made[id] == byOpaque[id] && byOpaque[id].opaqueID == id
            && made[byOpaque[id].opaqueID] == byOpaque[id]
  {
  }

  class SessionTable {
    const ttl: int
    var byOpaque: map<string, Session>
    var byToken: map<string, Session>
    ghost var made: map<string, Session> // every row, under its id

    ghost predicate Valid()
      reads this, made.Values
    {
      Kept(made, byOpaque, byToken) && Unique(made)
    }

    ghost function Contents(): Sessions
      reads this, made.Values
    {
      Sessions(Rows(made), byOpaque.Keys, Ids(byToken))
    }

    constructor (ttl: int)
      ensures Valid() && Contents() == NONE && this.ttl == ttl
    {
      this.ttl := ttl;
      byOpaque, byToken, made := map[], map[], map[];
    }

    /** One row has changed. */
    twostate lemma Changed(s: Session)
      requires old(Valid()) && made == old(made) && s.opaqueID in made && made[s.opaqueID] == s
      requires forall id :: id in made && made[id] != s ==> unchanged(made[id])
      ensures Rows(made) == old(Rows(made))[s.opaqueID := s.View()]
      ensures s.token == old(s.token) || (forall id :: id in made && made[id] != s ==> made[id].token != s.token) ==>
              Unique(made)
    {
    }

    lemma ContentsSound()
      requires Valid()
      ensures Sound(Contents())
    {
    }

    method NewOpaque(id: string, now: int) returns (s: Session)
      requires Valid() && id !in made
      modifies this
      ensures Valid() && Contents() == SignInSpec.NewOpaque(old(Contents()), id, now, ttl)
      ensures fresh(s) && made == old(made)[id := s] && s.opaqueID == id
    {
      s := new Session(id, now + ttl);
      RowsPut(made, id, s);
      KeptPut(made, byOpaque, byToken, id, s);
      UniquePut(made, id, s);
      hide Rows, Ids, Kept, Unique;
      made := made[id := s];
      byOpaque := byOpaque[id := s];
    }

    method DeleteLocked(s: Session)
      requires Valid() && s.opaqueID in made && made[s.opaqueID] == s
      modifies this`byOpaque, this`byToken
      ensures Valid() && Contents() == Delete(old(Contents()), s.opaqueID)
    {
      IdsMinus(byToken, s.token);
      KeptDelete(made, byOpaque, byToken, s.opaqueID, s.token);
      RowsAt(made, s.opaqueID);
      hide Rows, Ids, Unique, Kept;
      byOpaque := byOpaque - {s.opaqueID};
      if s.token != "" {
        byToken := byToken - {s.token};
      }
    }

    method LookupOpaque(id: string, now: int) returns (r: Option<Session>)
      requires Valid()
      modifies this`byOpaque, this`byToken
      ensures Valid() && Sound(old(Contents()))
      ensures Contents() == SignInSpec.LookupOpaque(old(Contents()), id, now).0
      ensures r.Some? <==> SignInSpec.LookupOpaque(old(Contents()), id, now).1.Some?
      ensures r.Some? ==> id in made && r.value == made[id] && r.value.opaqueID == id
                          && SignInSpec.LookupOpaque(old(Contents()), id, now).1 == Some(id)
                          && id in Contents().rows && Contents().rows[id] == r.value.View() && id in byOpaque
    {
      ContentsSound();
      if id !in byOpaque {
        return None;
      }
      var s := byOpaque[id];
      if now > s.expiresAt {
        DeleteLocked(s);
        return None;
      }
      r := Some(s);
    }

    /** Compares the token of every row the keys lead to. */
    method LookupToken(token: string, now: int) returns (r: Option<Session>)
      requires Valid()
      modifies this`byOpaque, this`byToken
      ensures Valid() && Sound(old(Contents()))
      ensures Contents() == SignInSpec.LookupToken(old(Contents()), token, now).0
      ensures r.Some? <==> SignInSpec.LookupToken(old(Contents()), token, now).1.Some?
      ensures r.Some? ==> r.value.opaqueID in made && r.value == made[r.value.opaqueID]
                          && SignInSpec.LookupToken(old(Contents()), token, now).1 == Some(r.value.opaqueID)
    {
      ContentsSound();
      if token == "" {
        return None;
      }
      var keys := byToken.Keys;
      while keys != {}
        invariant keys <= byToken.Keys && Valid() && Contents() == old(Contents())
        invariant forall k :: k in byToken && k !in keys ==> byToken[k].token != token
        decreases |keys|
      {
        var k :| k in keys;
        var s := byToken[k];
        if s.token == token {
          TheOne(token, k);
          if now > s.expiresAt {
            DeleteLocked(s);
            return None;
          }
          return Some(s);
        }
        keys := keys - {k};
      }
      Nobody(token);
      r := None;
    }

    /** Whichever key is met first, the row is the same. */
    lemma TheOne(token: string, k: string)
      requires Valid() && token != "" && k in byToken && byToken[k].token == token
      ensures Sound(Contents()) && Leads(Contents(), k, token)
      ensures forall k' :: Leads(Contents(), k', token) ==> Contents().byToken[k'] == byToken[k].opaqueID
    {
    }

    lemma Nobody(token: string)
      requires Valid() && forall k :: k in byToken ==> byToken[k].token != token
      ensures Sound(Contents()) && forall k :: !Leads(Contents(), k, token)
    {
    }

    method StashUsername(id: string, username: string, now: int) returns (ok: bool)
      requires Valid()
      modifies made.Values
      ensures Valid() && Sound(old(Contents())) && Contents() == Stash(old(Contents()), id, username, now)
    {
      ContentsSound();
      if id !in byOpaque {
        return false;
      }
      var s := byOpaque[id];
      if now > s.expiresAt {
        return false;
      }
      s.username := username;
      Changed(s);
      ok := true;
    }

    method Promote(id: string, username: string, deviceID: string, token: string, now: int) returns (r: Option<Session>)
      requires Valid() && token != "" && forall i :: i in made ==> made[i].token != token
      modifies this`byToken, made.Values
      ensures Valid()
      ensures r.Some? <==> id in old(byOpaque)
      ensures Contents() == if id in old(byOpaque) then
                              SignInSpec.Promote(old(Contents()), id, username, deviceID, token, now, ttl)
                            else old(Contents())
    {
      hide Rows, Ids, Unique, Kept;
      if id !in byOpaque {
        return None;
      }
      var s := byOpaque[id];
      KeptOpaque(made, byOpaque, byToken, id);
      IdsPut(byToken, token, s);
      Fill(s, username, deviceID, token, now);
      KeptToken(made, byOpaque, byToken, token, s);
      byToken := byToken[token := s];
      r := Some(s);
    }

    method Fill(s: Session, username: string, deviceID: string, token: string, now: int)
      requires Valid() && token != "" && s.opaqueID in made && made[s.opaqueID] == s
      requires forall i :: i in made ==> made[i].token != token
      modifies s
      ensures Valid() && Rows(made) == old(Rows(made))[s.opaqueID := Row(token, username, deviceID, now + ttl)]
    {
      s.token := token;
      s.username := username;
      s.deviceID := deviceID;
      s.expiresAt := now + ttl;
      Changed(s);
    }

    method Touch(s: Session, now: int)
      requires Valid() && s.opaqueID in made && made[s.opaqueID] == s
      modifies s`expiresAt
      ensures Valid() && Contents() == SignInSpec.Touch(old(Contents()), s.opaqueID, now, ttl)
    {
      s.expiresAt := now + ttl;
      Changed(s);
    }

    // The handlers

    method HandleInit(freshId: string, now: int)
      requires Valid() && freshId !in made
      modifies this
      ensures Valid() && Contents() == SignInSpec.NewOpaque(old(Contents()), freshId, now, ttl)
    {
      var _ := NewOpaque(freshId, now);
    }

    /** One auth reply; the verifier's answer and the fresh identifiers come with it. */
    method HandleAuth(r: Reply, now: int) returns (outcome: AuthOutcome)
      requires Valid() && r.freshId !in made
      requires r.freshToken != "" && forall i :: i in made ==> made[i].token != r.freshToken
      modifies this, made.Values
      ensures Valid() && Sound(old(Contents()))
      ensures (Contents(), outcome) == SignInSpec.HandleAuth(old(Contents()), r, now, ttl)
    {
      ContentsSound();
      hide SignInSpec.LookupOpaque, Stash, SignInSpec.NewOpaque, SignInSpec.Promote, Kept, Unique, Contents;
      var sess := LookupOpaque(r.opaque_, now);
      if sess == None || sess.value.username == "" {
        if r.username != "" {
          var id := r.opaque_;
          if sess == None {
            var fresh_ := NewOpaque(r.freshId, now);
            id := fresh_.opaqueID;
          }
          var _ := StashUsername(id, r.username, now);
        } else {
          var _ := NewOpaque(r.freshId, now);
        }
        return Prompted;
      }
      var username := sess.value.username;
      if r.password == "" {
        return Prompted;
      }
      if r.verified == None {
        return Refused;
      }
      var promoted := Promote(r.opaque_, username, r.verified.value, r.freshToken, now);
      outcome := SignedIn(username, r.verified.value, r.opaque_, r.freshToken);
    }

    method HandleConnect(cookie: string, resolved: bool, now: int) returns (outcome: ConnectOutcome)
      requires Valid()
      modifies this`byOpaque, this`byToken, made.Values
      ensures Valid() && Sound(old(Contents()))
      ensures (Contents(), outcome) == SignInSpec.HandleConnect(old(Contents()), cookie, resolved, now, ttl)
    {
      hide SignInSpec.LookupToken, SignInSpec.Touch;
      ContentsSound();
      var sess := LookupToken(cookie, now);
      if sess == None {
        return Unauthorized;
      }
      if !resolved {
        return Unresolved;
      }
      Touch(sess.value, now);
      outcome := Connected(Published(sess.value.opaqueID, sess.value.deviceID));
    }
  }
}
