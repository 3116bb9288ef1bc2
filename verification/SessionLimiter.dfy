/**
 * The game-session limiter: a map pruned on every mint, against a limiter that
 * keeps the whole history.
 */
module SessionLimiter {

  type ServerId = nat

  /** Nanoseconds. */
  const INTERVAL: nat := 10_000_000_000

  datatype Call = Call(server: ServerId, now: int)

  // ----- the specification: remember every mint -----

  /** Minted for `server` less than the interval before `now`. */
  predicate Recent(mints: seq<Call>, server: ServerId, now: int) {
    exists i :: 0 <= i < |mints| && mints[i].server == server && now - mints[i].now < INTERVAL
  }

  /** Decisions of the limiter that never forgets, and the mints it made. */
  function Remembering(mints: seq<Call>, calls: seq<Call>): (seq<bool>, seq<Call>)
    decreases |calls|
  {
    if calls == [] then ([], mints)
    else
      var c := calls[0];
      var allowed := !Recent(mints, c.server, c.now);
      var (rest, final) := Remembering(if allowed then mints + [c] else mints, calls[1..]);
      ([allowed] + rest, final)
  }

  // ----- the pruned map -----

  type Sessions = map<ServerId, int>

  predicate Allows(m: Sessions, c: Call) {
    !(c.server in m && c.now - m[c.server] < INTERVAL)
  }

  function After(m: Sessions, c: Call): Sessions {
    if Allows(m, c) then (map id | id in m && c.now - m[id] < INTERVAL :: m[id])[c.server := c.now] else m
  }

  function Pruning(m: Sessions, calls: seq<Call>): (seq<bool>, Sessions)
    decreases |calls|
  {
    if calls == [] then ([], m)
    else
      var (rest, final) := Pruning(After(m, calls[0]), calls[1..]);
      ([Allows(m, calls[0])] + rest, final)
  }

  class Limiter {
    var lastSessions: Sessions

    constructor ()
      ensures lastSessions == map[]
    {
      lastSessions := map[];
    }

    /** `allowGameSession`, under the handler's mutex; `now` is the monotonic clock. */
    method AllowGameSession(server: ServerId, now: int) returns (ok: bool)
      modifies this
      ensures ok == Allows(old(lastSessions), Call(server, now))
      ensures lastSessions == After(old(lastSessions), Call(server, now))
    {
      if server in lastSessions && now - lastSessions[server] < INTERVAL {
        return false;
      }
      ghost var before := lastSessions;
      var ids := lastSessions.Keys;
      while ids != {}
        invariant ids <= before.Keys
        invariant forall id :: id in lastSessions <==> id in before && (id in ids || now - before[id] < INTERVAL)
        invariant forall id :: id in lastSessions ==> lastSessions[id] == before[id]
        decreases |ids|
      {
        var id :| id in ids;
        if id in lastSessions && now - lastSessions[id] >= INTERVAL {
          lastSessions := lastSessions - {id};
        }
        ids := ids - {id};
      }
      lastSessions := lastSessions[server := now];
      ok := true;
    }
  }

  // ----- they decide alike -----

  ghost predicate NonDecreasing(calls: seq<Call>, from: int) {
    && (forall i :: 0 <= i < |calls| ==> from <= calls[i].now)
    && forall i, j :: 0 <= i < j < |calls| ==> calls[i].now <= calls[j].now
  }

  /**
   * The map holds the last mint of every server with a mint that could still
   * matter at `now`, and nothing that was not a mint.
   */
  ghost predicate Abstracts(m: Sessions, mints: seq<Call>, now: int) {
    && (forall i :: 0 <= i < |mints| ==> mints[i].now <= now)
    && (forall id :: id in m ==> exists i :: 0 <= i < |mints| && mints[i] == Call(id, m[id]))
    && (forall i :: 0 <= i < |mints| && now - mints[i].now < INTERVAL ==>
          mints[i].server in m && mints[i].now <= m[mints[i].server])
  }

  lemma SameDecision(m: Sessions, mints: seq<Call>, now: int, c: Call)
    requires Abstracts(m, mints, now) && now <= c.now
    ensures Allows(m, c) <==> !Recent(mints, c.server, c.now)
  {
    if !Allows(m, c) {
      var i :| 0 <= i < |mints| && mints[i] == Call(c.server, m[c.server]);
      assert mints[i].server == c.server;
    }
  }

  lemma StaysAbstract(m: Sessions, mints: seq<Call>, now: int, c: Call)
    requires Abstracts(m, mints, now) && now <= c.now
    ensures Abstracts(After(m, c), if Allows(m, c) then mints + [c] else mints, c.now)
  {
    if Allows(m, c) {
      var m', mints' := After(m, c), mints + [c];
      forall id | id in m' ensures exists i :: 0 <= i < |mints'| && mints'[i] == Call(id, m'[id]) {
        if id == c.server {
          assert mints'[|mints|] == Call(id, m'[id]);
        } else {
          var i :| 0 <= i < |mints| && mints[i] == Call(id, m[id]);
          assert mints'[i] == Call(id, m'[id]);
        }
      }
    }
  }

  /** For every call sequence on a clock that does not go back, the pruned map decides as the full history does. */
  lemma {:induction false} PruningLosesNothing(m: Sessions, mints: seq<Call>, now: int, calls: seq<Call>)
    requires Abstracts(m, mints, now) && NonDecreasing(calls, now)
    ensures Pruning(m, calls).0 == Remembering(mints, calls).0
    ensures calls != [] ==> Abstracts(Pruning(m, calls).1, Remembering(mints, calls).1, calls[|calls| - 1].now)
    decreases |calls|
  {
    if calls != [] {
      var c := calls[0];
      SameDecision(m, mints, now, c);
      StaysAbstract(m, mints, now, c);
      PruningLosesNothing(After(m, c), if Allows(m, c) then mints + [c] else mints, c.now, calls[1..]);
    }
  }

  /** Mints of one server are at least the interval apart. */
  ghost predicate Spaced(mints: seq<Call>) {
    forall i, j :: 0 <= i < j < |mints| && mints[i].server == mints[j].server ==>
      mints[j].now - mints[i].now >= INTERVAL
  }

  lemma {:induction false} MintsAreSpaced(mints: seq<Call>, calls: seq<Call>)
    requires Spaced(mints)
    ensures Spaced(Remembering(mints, calls).1)
    decreases |calls|
  {
    if calls != [] {
      var c := calls[0];
      MintsAreSpaced(if Recent(mints, c.server, c.now) then mints else mints + [c], calls[1..]);
    }
  }

  /** Call `j` was allowed, for the same server as call `i` and less than ten seconds before it. */
  ghost predicate Crowds(calls: seq<Call>, allowed: seq<bool>, j: nat, i: nat) {
    && j < i < |calls| && j < |allowed| && allowed[j] && calls[j].server == calls[i].server
    && calls[i].now - calls[j].now < 10_000_000_000
  }

  /** The full history allows a call exactly if no allowed one crowds it. */
  lemma {:induction false} RememberingAllows(mints: seq<Call>, calls: seq<Call>, i: nat)
    requires i < |calls|
    ensures |Remembering(mints, calls).0| == |calls|
    ensures
      var allowed := Remembering(mints, calls).0;
      allowed[i] <==> !Recent(mints, calls[i].server, calls[i].now) && !exists j: nat :: Crowds(calls, allowed, j, i)
    decreases |calls|
  {
    var c, rest := calls[0], calls[1..];
    var ok := !Recent(mints, c.server, c.now);
    var mints' := if ok then mints + [c] else mints;
    var allowed, later := Remembering(mints, calls).0, Remembering(mints', rest).0;
    assert allowed == [ok] + later;
    RememberingLength(mints', rest);
    if i > 0 {
      var i' := i - 1;
      RememberingAllows(mints', rest, i');
      RecentSnoc(mints, c, calls[i].server, calls[i].now);
      if j: nat :| Crowds(calls, allowed, j, i) {
        assert j > 0 ==> Crowds(rest, later, j - 1, i');
      }
      if j: nat :| Crowds(rest, later, j, i') {
        assert Crowds(calls, allowed, j + 1, i);
      }
      assert Crowds(calls, allowed, 0, i) <==> ok && c.server == calls[i].server && calls[i].now - c.now < INTERVAL;
    }
  }

  lemma RecentSnoc(mints: seq<Call>, c: Call, server: ServerId, now: int)
    ensures Recent(mints + [c], server, now) <==>
            Recent(mints, server, now) || (c.server == server && now - c.now < INTERVAL)
  {
    var all := mints + [c];
    if i :| 0 <= i < |mints| && mints[i].server == server && now - mints[i].now < INTERVAL {
      assert all[i].server == server;
    }
    if c.server == server && now - c.now < INTERVAL {
      assert all[|mints|].server == server;
    }
  }

  lemma {:induction false} RememberingLength(mints: seq<Call>, calls: seq<Call>)
    ensures |Remembering(mints, calls).0| == |calls|
    decreases |calls|
  {
    if calls != [] {
      var c := calls[0];
      RememberingLength(if Recent(mints, c.server, c.now) then mints else mints + [c], calls[1..]);
    }
  }

  /** The map holds only servers minted within the interval before `now`. */
  ghost predicate OnlyRecent(m: Sessions, now: int) {
    forall id :: id in m ==> now - m[id] < INTERVAL
  }

  /** After each allowed call of a sequence it does. */
  lemma {:induction false} MapStaysRecent(m: Sessions, calls: seq<Call>, i: nat)
    requires i < |calls|
    ensures |Pruning(m, calls).0| == |calls|
    ensures Pruning(m, calls).0[i] ==> OnlyRecent(Pruning(m, calls[..i + 1]).1, calls[i].now)
    decreases |calls|
  {
    DecisionPerCall(m, calls);
    assert calls[..i + 1][1..] == calls[1..][..i];
    assert Pruning(m, calls[..i + 1]).1 == Pruning(After(m, calls[0]), calls[1..][..i]).1;
    if i > 0 {
      MapStaysRecent(After(m, calls[0]), calls[1..], i - 1);
    } else {
      assert Pruning(After(m, calls[0]), []).1 == After(m, calls[0]);
    }
  }

  lemma {:induction false} DecisionPerCall(m: Sessions, calls: seq<Call>)
    ensures |Pruning(m, calls).0| == |calls|
    decreases |calls|
  {
    if calls != [] {
      DecisionPerCall(After(m, calls[0]), calls[1..]);
    }
  }

  /**
   * A limiter from the start: same decisions as full history, so a call is allowed
   * exactly if no allowed call for the same server came less than ten seconds before;
   * mints of one server ten seconds apart; and after each allowed call a map of
   * nothing but servers minted within the last ten seconds.
   */
  lemma FreshLimiterIsExact(calls: seq<Call>, start: int)
    requires NonDecreasing(calls, start)
    ensures Pruning(map[], calls).0 == Remembering([], calls).0
    ensures Spaced(Remembering([], calls).1)
    ensures |Pruning(map[], calls).0| == |calls|
    ensures
      var allowed := Pruning(map[], calls).0;
      forall i :: 0 <= i < |calls| ==> (allowed[i] <==> !exists j: nat :: Crowds(calls, allowed, j, i))
    ensures forall i :: 0 <= i < |calls| && Pruning(map[], calls).0[i] ==>
              OnlyRecent(Pruning(map[], calls[..i + 1]).1, calls[i].now)
  {
    PruningLosesNothing(map[], [], start, calls);
    MintsAreSpaced([], calls);
    DecisionPerCall(map[], calls);
    var allowed := Pruning(map[], calls).0;
    forall i | 0 <= i < |calls| ensures allowed[i] <==> !exists j: nat :: Crowds(calls, allowed, j, i) {
      RememberingAllows([], calls, i);
    }
    forall i | 0 <= i < |calls| && Pruning(map[], calls).0[i]
      ensures OnlyRecent(Pruning(map[], calls[..i + 1]).1, calls[i].now)
    {
      MapStaysRecent(map[], calls, i);
    }
  }

  /**
   * The clock condition is needed: after a step back the map has forgotten a mint
   * that the history still counts.
   */
  lemma ClockStepBackDiffers()
    ensures
      var calls := [Call(0, 0), Call(1, INTERVAL), Call(0, 1)];
      Pruning(map[], calls).0 != Remembering([], calls).0
  {
    var a, b, c := Call(0, 0), Call(1, INTERVAL), Call(0, 1);
    var calls := [a, b, c];
    var m1 := After(map[], a);
    var m2 := After(m1, b);
    assert 0 !in m2;
    assert calls[1..] == [b, c] && [b, c][1..] == [c];
    assert Pruning(m2, [c]).0[0];
    assert Pruning(map[], calls).0 == [true] + Pruning(m1, [b, c]).0;
    assert Pruning(m1, [b, c]).0 == [Allows(m1, b)] + Pruning(m2, [c]).0;
    assert Pruning(map[], calls).0[2];
    assert !Recent([a], b.server, b.now);
    assert [] + [a] == [a];
    assert Remembering([], calls).0 == [true] + Remembering([a], [b, c]).0;
    var h := [a] + [b];
    assert h[0] == a;
    assert Recent(h, c.server, c.now);
    assert Remembering([a], [b, c]).0 == [true] + Remembering(h, [c]).0;
    assert !Remembering(h, [c]).0[0];
    assert !Remembering([], calls).0[2];
  }
}
