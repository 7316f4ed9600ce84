/** The cache of authenticated sessions. Times are in seconds; every call reads a clock that
    does not go back, up to three times. */
module AuthCache {

  const CACHE_TIMEOUT := 900.0
  const PURGE_INTERVAL := 5.0

  type Session = string

  class AuthenticationCache {
    /** The table: for each session the time its row expires. */
    var rows: map<Session, real>
    var lastPurge: real
    /** When each session was last cached or hit. */
    ghost var touched: map<Session, real>
    /** The latest time read from the clock. */
    ghost var clock: real

    constructor ()
      ensures Valid() && rows == map[] && touched == map[] && clock == 0.0
    {
      rows, lastPurge, touched, clock := map[], 0.0, map[], 0.0;
    }

    /** A row expires a full timeout after its session was touched, and never before the last
        purge; a session without a row was touched longer ago than that. */
    ghost predicate Valid()
      reads this
    {
      && 0.0 <= lastPurge <= clock
      && (forall s | s in rows :: s in touched && rows[s] == touched[s] + CACHE_TIMEOUT && rows[s] >= lastPurge)
      && (forall s | s in touched :: touched[s] <= clock && (s in rows || touched[s] + CACHE_TIMEOUT < clock))
    }

    /** Whether a call at `now` purges, and what it leaves. */
    function Kept(now: real, later: real): map<Session, real>
      reads this
    {
      if now - lastPurge < PURGE_INTERVAL then rows else map s | s in rows && rows[s] >= later :: rows[s]
    }

    method DeleteOld(now: real, later: real)
      requires Valid() && clock <= now <= later
      modifies this`rows, this`lastPurge, this`clock
      ensures Valid() && clock == later && rows == old(Kept(now, later))
      ensures lastPurge == if now - old(lastPurge) < 5.0 then old(lastPurge) else now
    {
      clock := later;
      if now - lastPurge < PURGE_INTERVAL {
        return;
      }
      rows := map s | s in rows && rows[s] >= later :: rows[s];
      lastPurge := now;
    }

    /** Remembers a session. */
    method Cache(s: Session, t0: real, now: real, later: real)
      requires Valid() && clock <= t0 <= now <= later
      modifies this
      ensures Valid() && clock == later && touched == old(touched)[s := t0]
    {
      rows := rows[s := t0 + CACHE_TIMEOUT];
      touched := touched[s := t0];
      clock := t0;
      DeleteOld(now, later);
    }

    /** Looks a session up. A hit means that it was touched less than fifteen minutes and five
        seconds ago; one touched within fifteen minutes is always hit; and a hit counts as a
        touch. */
    method CheckCache(s: Session, now: real, later: real, last: real) returns (hit: bool)
      requires Valid() && clock <= now <= later <= last
      modifies this
      ensures Valid() && clock == last && touched == if hit then old(touched)[s := last] else old(touched)
      ensures hit <==> s in old(Kept(now, later))
      ensures hit ==> s in old(touched) && now - old(touched)[s] < 905.0
      ensures s in old(touched) && later - old(touched)[s] <= 900.0 ==> hit
    {
      HitsAreRecent(s, now, later);
      DeleteOld(now, later);
      hit := s in rows;
      clock := last;
      if hit {
        rows := rows[s := last + CACHE_TIMEOUT];
        touched := touched[s := last];
      }
    }

    /** What a purge leaves is recent, and what is recent is left. */
    lemma HitsAreRecent(s: Session, now: real, later: real)
      requires Valid() && clock <= now <= later
      ensures s in Kept(now, later) ==> s in touched && now - touched[s] < 905.0
      ensures s in touched && later - touched[s] <= 900.0 ==> s in Kept(now, later)
    {
    }
  }
}
