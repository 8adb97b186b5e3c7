/** The in-memory session registry (sessions/registry.py). */
module SessionRegistry {
  import opened Options

  datatype Principal = Principal(kind: string, id: string)

  datatype Session = Session(sid: string, tenant: nat, vserver: string, principal: Principal, expiresAt: real)

  type Key = (nat, string)

  type Sessions = map<Key, Session>

  predicate Expired(session: Session, now: real) {
    session.expiresAt <= now
  }

  /** What a lookup finds: a session that is there and not expired. */
  function Found(sessions: Sessions, key: Key, now: real): Option<Session> {
    if key in sessions && !Expired(sessions[key], now) then Some(sessions[key]) else None
  }

  /** A lookup drops the entry it asks for when that has expired. */
  function AfterLookup(sessions: Sessions, key: Key, now: real): Sessions {
    if key in sessions && Expired(sessions[key], now) then sessions - {key} else sessions
  }

  class InMemorySessionRegistry {
    var sessions: Sessions

    constructor ()
      ensures sessions == map[]
    {
      sessions := map[];
    }

    method CreateSession(session: Session)
      modifies this
      ensures sessions == old(sessions)[(session.tenant, session.sid) := session]
    {
      sessions := sessions[(session.tenant, session.sid) := session];
    }

    method GetSession(tenant: nat, sid: string, now: real) returns (session: Option<Session>)
      modifies this
      ensures session == Found(old(sessions), (tenant, sid), now)
      ensures session.Some? <==> (tenant, sid) in old(sessions) && now < old(sessions)[(tenant, sid)].expiresAt
      ensures session.Some? ==> session.value == old(sessions)[(tenant, sid)]
      ensures sessions == AfterLookup(old(sessions), (tenant, sid), now)
      ensures forall key :: key in sessions
                <==> (key in old(sessions) && !(key == (tenant, sid) && old(sessions)[key].expiresAt <= now))
      ensures forall key :: key in sessions ==> sessions[key] == old(sessions)[key]
    {
      if (tenant, sid) !in sessions {
        return None;
      }
      var entry := sessions[(tenant, sid)];
      if Expired(entry, now) {
        sessions := sessions - {(tenant, sid)};
        return None;
      }
      return Some(entry);
    }

    method DeleteSession(tenant: nat, sid: string)
      modifies this
      ensures sessions == old(sessions) - {(tenant, sid)}
    {
      sessions := sessions - {(tenant, sid)};
    }
  }
}
