/** The life of session maps over whole runs: opened, used, closed in two halves, swept when idle. */
module SessionLifecycle {

  datatype Session = Session(requestId: string, lastAccess: int, purged: bool)

  /** Every session map ever opened, the registered ones by request id, and the ones popped by a `close`
      that has not purged yet. */
  datatype World = World(sessions: seq<Session>, registered: map<string, nat>, closing: set<nat>)

  datatype Step =
    | Open(requestId: string, now: int)
    | Touch(handle: nat, now: int)
    | Pop(requestId: string)
    | FinishClose(handle: nat)
    | Sweep(now: int)

  const INITIAL := World([], map[], {})

  predicate Idle(s: Session, now: int, timeout: int) {
    s.purged || now - s.lastAccess >= timeout
  }

  /** The registered requests a sweep finds idle. */
  function Stale(w: World, now: int, timeout: int): set<string> {
    set rid | rid in w.registered && w.registered[rid] < |w.sessions|
      && Idle(w.sessions[w.registered[rid]], now, timeout)
  }

  function StaleHandles(w: World, now: int, timeout: int): set<nat> {
    set rid | rid in Stale(w, now, timeout) :: w.registered[rid]
  }

  function PurgeAll(sessions: seq<Session>, handles: set<nat>): seq<Session> {
    seq(|sessions|, h requires 0 <= h < |sessions| => if h in handles then sessions[h].(purged := true)
      else sessions[h])
  }

  /** One step; a step that is not possible (touching a purged map, closing an unknown request) changes nothing. */
  function Next(w: World, step: Step, timeout: int): World {
    match step
    case Open(rid, now) =>
      World(w.sessions + [Session(rid, now, false)], w.registered[rid := |w.sessions|], w.closing)
    case Touch(h, now) =>
      if h < |w.sessions| && !w.sessions[h].purged
        then w.(sessions := w.sessions[h := w.sessions[h].(lastAccess := now)]) else w
    case Pop(rid) =>
      if rid in w.registered then World(w.sessions, w.registered - {rid}, w.closing + {w.registered[rid]}) else w
    case FinishClose(h) =>
      if h in w.closing then World(PurgeAll(w.sessions, {h}), w.registered, w.closing - {h}) else w
    case Sweep(now) =>
      World(PurgeAll(w.sessions, StaleHandles(w, now, timeout)), w.registered - Stale(w, now, timeout), w.closing)
  }

  function Run(steps: seq<Step>, timeout: int): World {
    if steps == [] then INITIAL else Next(Run(steps[..|steps| - 1], timeout), steps[|steps| - 1], timeout)
  }

  /** A registered map is alive and is that request's own; an unregistered one is purged, or held by a
      pending close. */
  ghost predicate Inv(w: World) {
    && (forall rid :: rid in w.registered ==> RegisteredAlive(w, rid))
    && (forall h :: 0 <= h < |w.sessions| ==> AccountedFor(w, h))
    && (forall h :: h in w.closing ==> h < |w.sessions|)
  }

  ghost predicate RegisteredAlive(w: World, rid: string)
    requires rid in w.registered
  {
    var h := w.registered[rid];
    h < |w.sessions| && w.sessions[h].requestId == rid && !w.sessions[h].purged && h !in w.closing
  }

  ghost predicate AccountedFor(w: World, h: nat)
    requires h < |w.sessions|
  {
    || w.sessions[h].purged
    || h in w.closing
    || (w.sessions[h].requestId in w.registered && w.registered[w.sessions[h].requestId] == h)
  }

  lemma NextKeepsInv(w: World, step: Step, timeout: int)
    requires Inv(w) && (step.Open? ==> step.requestId !in w.registered)
    ensures Inv(Next(w, step, timeout))
  {
    match step
    case Open(rid, now) => OpenKeepsInv(w, rid, now, timeout);
    case Touch(h, now) => TouchKeepsInv(w, h, now, timeout);
    case Pop(rid) => PopKeepsInv(w, rid, timeout);
    case FinishClose(h) => FinishKeepsInv(w, h, timeout);
    case Sweep(now) => SweepKeepsInv(w, now, timeout);
  }

  lemma OpenKeepsInv(w: World, rid: string, now: int, timeout: int)
    requires Inv(w) && rid !in w.registered
    ensures Inv(Next(w, Open(rid, now), timeout))
  {
    var v := Next(w, Open(rid, now), timeout);
    forall r | r in v.registered ensures RegisteredAlive(v, r) {
      if r != rid { assert RegisteredAlive(w, r); }
    }
    forall h | 0 <= h < |v.sessions| ensures AccountedFor(v, h) {
      if h < |w.sessions| { assert AccountedFor(w, h); }
    }
  }

  lemma TouchKeepsInv(w: World, h: nat, now: int, timeout: int)
    requires Inv(w)
    ensures Inv(Next(w, Touch(h, now), timeout))
  {
    var v := Next(w, Touch(h, now), timeout);
    forall r | r in v.registered ensures RegisteredAlive(v, r) { assert RegisteredAlive(w, r); }
    forall k | 0 <= k < |v.sessions| ensures AccountedFor(v, k) { assert AccountedFor(w, k); }
  }

  lemma PopKeepsInv(w: World, rid: string, timeout: int)
    requires Inv(w)
    ensures Inv(Next(w, Pop(rid), timeout))
  {
    var v := Next(w, Pop(rid), timeout);
    if rid in w.registered {
      assert RegisteredAlive(w, rid);
      forall r | r in v.registered ensures RegisteredAlive(v, r) { assert RegisteredAlive(w, r); }
      forall k | 0 <= k < |v.sessions| ensures AccountedFor(v, k) { assert AccountedFor(w, k); }
    }
  }

  lemma FinishKeepsInv(w: World, h: nat, timeout: int)
    requires Inv(w)
    ensures Inv(Next(w, FinishClose(h), timeout))
  {
    var v := Next(w, FinishClose(h), timeout);
    forall r | r in v.registered ensures RegisteredAlive(v, r) { assert RegisteredAlive(w, r); }
    forall k | 0 <= k < |v.sessions| ensures AccountedFor(v, k) { assert AccountedFor(w, k); }
  }

  /** No two requests share a map, so a stale handle belongs to a stale request. */
  lemma StaleHandle(w: World, rid: string, now: int, timeout: int)
    requires Inv(w) && rid in w.registered
    ensures w.registered[rid] in StaleHandles(w, now, timeout) <==> rid in Stale(w, now, timeout)
  {
    assert RegisteredAlive(w, rid);
    if w.registered[rid] in StaleHandles(w, now, timeout) {
      var q :| q in Stale(w, now, timeout) && w.registered[q] == w.registered[rid];
      assert RegisteredAlive(w, q);
    }
  }

  lemma SweepKeepsInv(w: World, now: int, timeout: int)
    requires Inv(w)
    ensures Inv(Next(w, Sweep(now), timeout))
  {
    var v := Next(w, Sweep(now), timeout);
    forall r | r in v.registered ensures RegisteredAlive(v, r) {
      assert RegisteredAlive(w, r);
      StaleHandle(w, r, now, timeout);
    }
    forall k | 0 <= k < |v.sessions| ensures AccountedFor(v, k) {
      assert AccountedFor(w, k);
      var rid := w.sessions[k].requestId;
      if rid in w.registered && w.registered[rid] == k && rid !in v.registered {
        assert rid in Stale(w, now, timeout) && k in StaleHandles(w, now, timeout);
      }
    }
  }

  /** Request ids are fresh: no run opens the same one twice. */
  ghost predicate FreshIds(steps: seq<Step>) {
    forall i, j :: 0 <= i < j < |steps| && steps[i].Open? && steps[j].Open? ==> steps[i].requestId != steps[j].requestId
  }

  lemma {:induction false} RegisteredWereOpened(steps: seq<Step>, timeout: int, rid: string)
    requires rid in Run(steps, timeout).registered
    ensures exists i :: 0 <= i < |steps| && steps[i].Open? && steps[i].requestId == rid
  {
    var n := |steps| - 1;
    if steps[n].Open? && steps[n].requestId == rid {
    } else {
      RegisteredWereOpened(steps[..n], timeout, rid);
      var i :| 0 <= i < n && steps[..n][i].Open? && steps[..n][i].requestId == rid;
      assert steps[i].Open?;
    }
  }

  /** In every run with fresh request ids, a registered map is alive and an unregistered one is purged or
      held by a pending close. */
  lemma {:induction false} RunsKeepInv(steps: seq<Step>, timeout: int)
    requires FreshIds(steps)
    ensures Inv(Run(steps, timeout))
  {
    if steps == [] {
    } else {
      var n := |steps| - 1;
      assert forall i :: 0 <= i < n ==> steps[..n][i] == steps[i];
      RunsKeepInv(steps[..n], timeout);
      var w := Run(steps[..n], timeout);
      if steps[n].Open? && steps[n].requestId in w.registered {
        RegisteredWereOpened(steps[..n], timeout, steps[n].requestId);
      }
      NextKeepsInv(w, steps[n], timeout);
    }
  }

  /** Opening keeps the invariant if and only if the request id is not registered: opening it again would
      leave the earlier map alive with nothing left to close it. */
  lemma OpenKeepsInvExactly(w: World, rid: string, now: int, timeout: int)
    requires Inv(w)
    ensures Inv(Next(w, Open(rid, now), timeout)) <==> rid !in w.registered
  {
    if rid in w.registered {
      assert RegisteredAlive(w, rid);
      var v := Next(w, Open(rid, now), timeout);
      assert !AccountedFor(v, w.registered[rid]);
    } else {
      OpenKeepsInv(w, rid, now, timeout);
    }
  }

  lemma NextKeepsPurged(w: World, step: Step, timeout: int, h: nat)
    requires h < |w.sessions| && w.sessions[h].purged
    ensures h < |Next(w, step, timeout).sessions| && Next(w, step, timeout).sessions[h] == w.sessions[h]
  {
  }

  /** Purging is permanent: whatever happens afterwards, the map stays purged and is never accessed again. */
  lemma {:induction false} PurgedForever(steps: seq<Step>, timeout: int, k: nat, h: nat)
    requires k <= |steps| && h < |Run(steps[..k], timeout).sessions| && Run(steps[..k], timeout).sessions[h].purged
    ensures h < |Run(steps, timeout).sessions|
      && Run(steps, timeout).sessions[h] == Run(steps[..k], timeout).sessions[h]
    decreases |steps|
  {
    var n := |steps| - 1;
    if k == |steps| {
      assert steps[..k] == steps;
    } else {
      assert steps[..n][..k] == steps[..k];
      PurgedForever(steps[..n], timeout, k, h);
      NextKeepsPurged(Run(steps[..n], timeout), steps[n], timeout, h);
    }
  }

  /** A sweep unregisters and purges exactly the live registered maps not used for the timeout, counts them,
      and leaves every other map as it was. */
  lemma SweepExactly(w: World, now: int, timeout: int)
    requires Inv(w)
    ensures var v := Next(w, Sweep(now), timeout);
      && |v.registered| + |Stale(w, now, timeout)| == |w.registered|
      && (forall rid :: rid in w.registered ==>
           var h := w.registered[rid];
           (rid !in v.registered <==> now - w.sessions[h].lastAccess >= timeout)
           && (v.sessions[h].purged <==> now - w.sessions[h].lastAccess >= timeout))
      && (forall h :: 0 <= h < |w.sessions| && h !in w.registered.Values ==> v.sessions[h] == w.sessions[h])
  {
    var stale := Stale(w, now, timeout);
    var v := Next(w, Sweep(now), timeout);
    forall rid | rid in w.registered
      ensures rid !in v.registered <==> now - w.sessions[w.registered[rid]].lastAccess >= timeout
      ensures v.sessions[w.registered[rid]].purged <==> now - w.sessions[w.registered[rid]].lastAccess >= timeout
    {
      var h := w.registered[rid];
      assert RegisteredAlive(w, rid);
      StaleHandle(w, rid, now, timeout);
    }
    assert v.registered.Keys == w.registered.Keys - stale;
    assert stale <= w.registered.Keys;
    assert |w.registered.Keys - stale| == |w.registered.Keys| - |stale|;
  }

  /** Both halves of `close` with nothing in between. */
  function AfterClose(w: World, rid: string, timeout: int): World {
    if rid in w.registered then Next(Next(w, Pop(rid), timeout), FinishClose(w.registered[rid]), timeout) else w
  }

  /** A close purges and unregisters the request's map, leaves nothing pending, and touches no other request's. */
  lemma CloseExactly(w: World, rid: string, timeout: int)
    requires Inv(w) && rid in w.registered
    ensures var v := AfterClose(w, rid, timeout);
      && Inv(v) && v.registered == w.registered - {rid} && v.closing == w.closing
      && |v.sessions| == |w.sessions|
      && v.sessions[w.registered[rid]].purged && !w.sessions[w.registered[rid]].purged
      && (forall h :: 0 <= h < |w.sessions| && h != w.registered[rid] ==> v.sessions[h] == w.sessions[h])
  {
    assert RegisteredAlive(w, rid);
    PopKeepsInv(w, rid, timeout);
    FinishKeepsInv(Next(w, Pop(rid), timeout), w.registered[rid], timeout);
  }

  /** A live registered map survives a sweep if and only if it was used less than the timeout before. */
  lemma UsedMapSurvives(w: World, rid: string, used: int, now: int, timeout: int)
    requires Inv(w) && rid in w.registered
    ensures var h := w.registered[rid];
      var v := Next(Next(w, Touch(h, used), timeout), Sweep(now), timeout);
      && h < |v.sessions|
      && (rid in v.registered && !v.sessions[h].purged <==> now - used < timeout)
      && (rid !in v.registered && v.sessions[h].purged <==> now - used >= timeout)
  {
    assert RegisteredAlive(w, rid);
    TouchKeepsInv(w, w.registered[rid], used, timeout);
    StaleHandle(Next(w, Touch(w.registered[rid], used), timeout), rid, now, timeout);
  }
}
