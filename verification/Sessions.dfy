/** Session ids: allocation with wraparound, removal, and reclaiming of idle sessions. */
module Sessions {
  import opened Bytes
  import Multimaps

  datatype Session = Session(id: int64, charged: int)

  /** ++ on a 64-bit atomic counter. */
  function Increment(v: int64): int64 {
    if v == TWO_63 - 1 then -TWO_63 else v + 1
  }

  /** How many increments of the counter come before the one that gives the id. */
  function Ahead(counter: int64, id: int64): (d: nat)
    ensures d < TWO_64
  {
    var d := id - counter - 1;
    if d < 0 then d + TWO_64 else d
  }

  // ----- there is always a free id -----

  function Range(lo: int, n: nat): (s: set<int>)
    ensures forall x :: x in s <==> lo <= x < lo + n
  {
    if n == 0 then {} else Range(lo, n - 1) + {lo + n - 1}
  }

  lemma {:induction false} RangeSize(lo: int, n: nat)
    ensures |Range(lo, n)| == n
  {
    if n > 0 {
      RangeSize(lo, n - 1);
    }
  }

  lemma SubsetSize(a: set<int>, b: set<int>)
    requires a <= b
    ensures |a| <= |b|
  {
    assert b == a + (b - a);
    assert |b| == |a| + |b - a|;
  }

  /** Fewer than 2^64 - 1 sessions leave some nonzero id free. */
  lemma FreeId(active: map<int64, Session>)
    requires |active| < TWO_64 - 1
    ensures exists id: int64 :: id != 0 && id !in active
  {
    if forall id: int64 :: id != 0 ==> id in active {
      var all := Range(-TWO_63, TWO_64) - {0};
      RangeSize(-TWO_63, TWO_64);
      var keys := set id: int | id in active.Keys;
      assert keys == active.Keys;
      forall x: int | x in all
        ensures x in keys
      {
        var id: int64 := x;
        assert id in active;
      }
      SubsetSize(all, keys);
      assert false;
    }
  }

  class SessionManager {
    var active: map<int64, Session>
    var nextId: int64

    /** Active ids are nonzero and key their own session. */
    ghost predicate Valid()
      reads this
    {
      forall id :: id in active ==> id != 0 && active[id].id == id
    }

    constructor ()
      ensures Valid() && active == map[] && nextId == 0
    {
      active, nextId := map[], 0;
    }

    /** Lines 32-40 of SessionManager.cpp. */
    method FindSession(id: int64) returns (r: Option<Session>)
      requires Valid()
      ensures r == if id in active then Some(active[id]) else None
      ensures r.Some? ==> r.value.id == id
    {
      if id !in active {
        return None;
      }
      return Some(active[id]);
    }

    /** Lines 74-80 of SessionManager.cpp. */
    method NewSessionId() returns (id: int64)
      modifies this`nextId
      ensures id != 0 && nextId == id
      ensures forall other: int64 :: other != 0 ==> Ahead(old(nextId), id) <= Ahead(old(nextId), other)
      ensures forall other: int64 :: other != 0 && other != id ==> Ahead(id, other) < Ahead(old(nextId), other)
    {
      nextId := Increment(nextId);
      id := nextId;
      if id == 0 {
        nextId := Increment(nextId);
        id := nextId;
      }
    }

    /** Lines 43-58 of SessionManager.cpp: the first free id after the counter, found whenever fewer than 2^64 - 1
        sessions are active. now is the clock. */
    method CreateSession(now: int) returns (session: Session)
      requires Valid() && |active| < TWO_64 - 1
      modifies this
      ensures Valid() && session.id != 0 && session.id !in old(active)
      ensures active == old(active)[session.id := session] && session.charged == now && nextId == session.id
      ensures forall id: int64 ::
        id != 0 && Ahead(old(nextId), id) < Ahead(old(nextId), session.id) ==> id in old(active)
    {
      FreeId(active);
      ghost var free: int64 :| free != 0 && free !in active;
      ghost var start := nextId;
      var sid := NewSessionId();
      while sid in active
        invariant active == old(active) && Valid() && sid != 0 && nextId == sid
        invariant forall id: int64 :: id != 0 && Ahead(start, id) < Ahead(start, sid) ==> id in active
        decreases if sid in active then Ahead(sid, free) + 1 else 0
      {
        ghost var before := sid;
        sid := NewSessionId();
        NextTried(active, start, before, sid, free);
      }
      session := Session(sid, now);
      active := active[sid := session];
    }

    /** Lines 61-71 of SessionManager.cpp. */
    method RemoveSession(id: int64) returns (r: Option<Session>)
      requires Valid()
      modifies this`active
      ensures Valid() && active == old(active) - {id}
      ensures r == if id in old(active) then Some(old(active)[id]) else None
    {
      if id !in active {
        assert active == active - {id};
        return None;
      }
      r := Some(active[id]);
      active := active - {id};
    }

    /** Lines 83-106 of SessionManager.cpp: idle times are kept in 32 signed bits. */
    method ReclaimExpiredSessions(now: int, timeout: int)
      requires Valid()
      modifies this`active
      ensures Valid()
      ensures timeout == 0 ==> active == old(active)
      ensures timeout != 0 ==>
        active == map id | id in old(active) && IdleSecs(old(active)[id], now) < timeout :: old(active)[id]
      ensures timeout != 0 && old(AllRecent(active, now)) ==>
        active == map id | id in old(active) && now - old(active)[id].charged < timeout :: old(active)[id]
    {
      if timeout == 0 {
        return;
      }
      ghost var before := active;
      var rest := active.Keys;
      while rest != {}
        invariant rest <= before.Keys && active.Keys <= before.Keys
        invariant forall id :: id in active ==> active[id] == before[id]
        invariant forall id :: id in before ==> (id in active <==> id in rest || IdleSecs(before[id], now) < timeout)
      {
        Multimaps.HasElement(rest);
        var id: int64 :| id in rest;
        if IdleSecs(active[id], now) >= timeout {
          active := active - {id};
        }
        rest := rest - {id};
      }
      if AllRecent(before, now) {
        forall id | id in before
          ensures IdleSecs(before[id], now) >= timeout <==> now - before[id].charged >= timeout
        {
          IdleIs(before[id], now, timeout);
        }
      }
    }
  }

  /** No session has been idle for 2^31 seconds. */
  ghost predicate AllRecent(active: map<int64, Session>, now: int) {
    forall id :: id in active ==> 0 <= now - active[id].charged < TWO_31
  }

  function IdleSecs(s: Session, now: int): int {
    ToInt32(now - s.charged)
  }

  /** For idle times below 2^31 seconds that is the sessions idle for at least the timeout. */
  lemma IdleIs(s: Session, now: int, timeout: int)
    requires 0 <= now - s.charged < TWO_31
    ensures IdleSecs(s, now) >= timeout <==> now - s.charged >= timeout
  {
  }

  /** From one id tried to the next: nothing nonzero is passed over, and a free id comes nearer. */
  lemma NextTried(active: map<int64, Session>, start: int64, before: int64, sid: int64, free: int64)
    requires before != 0 && sid != 0 && before in active && free != 0 && free !in active
    requires forall id: int64 :: id != 0 && Ahead(start, id) < Ahead(start, before) ==> id in active
    requires forall other: int64 :: other != 0 ==> Ahead(before, sid) <= Ahead(before, other)
    requires forall other: int64 :: other != 0 && other != sid ==> Ahead(sid, other) < Ahead(before, other)
    ensures forall id: int64 :: id != 0 && Ahead(start, id) < Ahead(start, sid) ==> id in active
    ensures sid in active ==> Ahead(sid, free) < Ahead(before, free)
  {
    forall id: int64 | id != 0 && Ahead(start, id) < Ahead(start, sid)
      ensures id in active
    {
      assert Ahead(before, sid) <= Ahead(before, id);
    }
  }
}
