/** Sessions of the HTTP output: `out/http/Sessioner.cpp`. */
module Sessioner {
  import opened Lists

  /** Five minutes, in the clock's nanoseconds. */
  const INACTIVITY_TIMEOUT := 300_000_000_000

  /** The cookies that have not expired. */
  function Unexpired(cookies: map<int, int>, now: int): map<int, int> {
    map id | id in cookies && now - cookies[id] < INACTIVITY_TIMEOUT :: cookies[id]
  }

  /** Exactly the sessions that were idle for less than five minutes remain, as they were. */
  ghost predicate RemainUnexpired(after: map<int, int>, before: map<int, int>, now: int) {
    && (forall id :: id in after <==> id in before && now - before[id] < INACTIVITY_TIMEOUT)
    && (forall id | id in after :: after[id] == before[id])
  }

  lemma ErasingLeavesUnexpired(cookies: map<int, int>, expired: set<int>, now: int)
    requires expired <= cookies.Keys
    requires forall id | id in cookies :: id in expired <==> now - cookies[id] >= INACTIVITY_TIMEOUT
    ensures cookies - expired == Unexpired(cookies, now)
    ensures RemainUnexpired(cookies - expired, cookies, now)
  {
    assert forall id :: id in cookies - expired <==> id in Unexpired(cookies, now);
  }

  lemma Inhabited(s: set<int>)
    requires s != {}
    ensures exists x :: x in s
  {
    assert (forall x: int :: x !in s) ==> s == {};
  }

  lemma {:induction false} MaxExists(s: set<int>)
    requires s != {}
    ensures exists m :: m in s && forall k | k in s :: k <= m
    decreases |s|
  {
    Inhabited(s);
    var x :| x in s;
    var rest := s - {x};
    if rest == {} {
      assert s == {x};
    } else {
      MaxExists(rest);
      var m :| m in rest && forall k | k in rest :: k <= m;
      var top := if x <= m then m else x;
      assert top in s && forall k | k in s :: k <= top by {
        assert s == rest + {x};
      }
    }
  }

  /** The last key of a `std::map`. */
  function MaxOf(s: set<int>): (m: int)
    requires s != {}
    ensures m in s && forall k | k in s :: k <= m
  {
    MaxExists(s);
    var m :| m in s && forall k | k in s :: k <= m;
    m
  }

  function NextId(cookies: map<int, int>): (id: int)
    ensures id !in cookies
  {
    if cookies.Keys == {} then 1 else MaxOf(cookies.Keys) + 1
  }

  class Sessioner {
    var cookies: map<int, int>

    constructor ()
      ensures cookies == map[]
    {
      cookies := map[];
    }

    /** `create`: the new id is one more than the highest id still stored, or 1, so that it differs
        from all of them, and nothing else changes. */
    method Create(now: int) returns (id: int)
      modifies this
      ensures forall k | k in old(cookies) :: k < id
      ensures if old(cookies) == map[] then id == 1 else id - 1 in old(cookies)
      ensures id == NextId(old(cookies)) && id !in old(cookies)
      ensures cookies == old(cookies)[id := now]
    {
      var lastId := 0;
      if cookies.Keys == {} {
        lastId := 1;
      } else {
        lastId := MaxOf(cookies.Keys) + 1;
      }
      cookies := cookies[lastId := now];
      return lastId;
    }

    /** `clearExpiredCookies`: first collects the expired ids, then erases them. */
    method ClearExpiredCookies(now: int)
      modifies this
      ensures cookies == Unexpired(old(cookies), now)
      ensures RemainUnexpired(cookies, old(cookies), now)
    {
      var expired: set<int> := {};
      var pending := cookies.Keys;
      while pending != {}
        invariant cookies == old(cookies)
        invariant pending <= cookies.Keys && expired <= cookies.Keys
        invariant forall id | id in cookies && id !in pending ::
                    id in expired <==> now - cookies[id] >= INACTIVITY_TIMEOUT
        invariant expired !! pending
        decreases |pending|
      {
        Inhabited(pending);
        var id :| id in pending;
        pending := pending - {id};
        if now - cookies[id] >= INACTIVITY_TIMEOUT {
          expired := expired + {id};
        }
      }
      ErasingLeavesUnexpired(cookies, expired, now);
      cookies := cookies - expired;
    }

    /** `getLastAccessTime`: clears what has expired; then either the session is gone, or its last
        access is returned and becomes `now`. */
    method GetLastAccessTime(id: int, now: int) returns (r: Option<int>)
      modifies this
      ensures r.Some? <==> id in old(cookies) && now - old(cookies)[id] < INACTIVITY_TIMEOUT
      ensures r.Some? ==> r.value == old(cookies)[id] && cookies == Unexpired(old(cookies), now)[id := now]
      ensures r.None? ==> cookies == Unexpired(old(cookies), now)
    {
      ClearExpiredCookies(now);
      if id !in cookies {
        return None;
      }
      var lastAccessTime := cookies[id];
      cookies := cookies[id := now];
      return Some(lastAccessTime);
    }
  }
}
