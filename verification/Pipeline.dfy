/** Requests through the pipeline: open a session map, substitute, forward, reverse, record, and always close. */
module Pipeline {
  import opened Results
  import opened Audit
  import Life = SessionLifecycle

  /** Where a request stands. `recorded` says whether its audit record was written; `popped` is the session
      map the first half of `close` took off the registry, if it was still there. */
  datatype Stage =
    | Detecting
    | Substituting
    | Forwarding
    | Reversing
    | Recording
    | Closing(recorded: bool)
    | Purging(recorded: bool, popped: Option<nat>)
    | Returned
    | Failed

  datatype Request = Request(stage: Stage, handle: Option<nat>)

  datatype State = State(
    world: Life.World, log: seq<AuditRecord>, cachedHead: Option<string>, requests: map<nat, Request>)

  /** What is given from outside: crypto, the fresh request id and audit body of each request, the idle timeout. */
  datatype Setup = Setup(crypto: Crypto, ids: nat -> string, bodies: nat -> Body, timeout: int)
  {
    ghost predicate Fresh() {
      && (forall m, n :: m != n ==> ids(m) != ids(n))
      && (forall m, n :: m != n ==> bodies(m).recordId != bodies(n).recordId)
      && (forall n :: bodies(n).requestId == ids(n))
    }
  }

  /** Requests run concurrently; any stage may raise, an insert may be refused after the head was read, and
      the idle sweep may come at any time. */
  datatype Step =
    | Arrive(request: nat)
    | Proceed(request: nat, now: int, touchesMap: bool)
    | Raise(request: nat)
    | RefuseInsert(request: nat)
    | SweepIdle(now: int)

  const INITIAL := State(Life.INITIAL, [], None, map[])

  function Head(s: State): string {
    if s.cachedHead.Some? then s.cachedHead.value else LatestHash(s.log)
  }

  function MoveTo(s: State, n: nat, stage: Stage): State
    requires n in s.requests
  {
    s.(requests := s.requests[n := s.requests[n].(stage := stage)])
  }

  predicate IsPurged(s: State, r: Request) {
    r.handle.Some? && r.handle.value < |s.world.sessions| && s.world.sessions[r.handle.value].purged
  }

  /** One stage of request n goes through. */
  function Advance(env: Setup, s: State, n: nat, now: int, touchesMap: bool): State
    requires n in s.requests
  {
    var r := s.requests[n];
    match r.stage
    case Detecting =>
      State(Life.Next(s.world, Life.Open(env.ids(n), now), env.timeout), s.log, s.cachedHead,
        s.requests[n := Request(Substituting, Some(|s.world.sessions|))])
    case Substituting =>
      if !touchesMap then MoveTo(s, n, Forwarding)
      else if IsPurged(s, r) || r.handle == None then MoveTo(s, n, Closing(false))
      else MoveTo(s.(world := Life.Next(s.world, Life.Touch(r.handle.value, now), env.timeout)), n, Forwarding)
    case Forwarding => MoveTo(s, n, Reversing)
    case Reversing => MoveTo(s, n, Recording)
    case Recording =>
      var record := Sealed(env.crypto, env.bodies(n), Head(s));
      MoveTo(s.(log := s.log + [record], cachedHead := Some(record.contentHash)), n, Closing(true))
    case Closing(recorded) =>
      var id := env.ids(n);
      var popped := if id in s.world.registered then Some(s.world.registered[id]) else None;
      MoveTo(s.(world := Life.Next(s.world, Life.Pop(id), env.timeout)), n, Purging(recorded, popped))
    case Purging(recorded, popped) =>
      var w := if popped.Some? then Life.Next(s.world, Life.FinishClose(popped.value), env.timeout) else s.world;
      MoveTo(s.(world := w), n, if recorded then Returned else Failed)
    case Returned => s
    case Failed => s
  }

  function Next(env: Setup, s: State, step: Step): State {
    match step
    case Arrive(n) => if n in s.requests then s else s.(requests := s.requests[n := Request(Detecting, None)])
    case Proceed(n, now, touchesMap) => if n in s.requests then Advance(env, s, n, now, touchesMap) else s
    case Raise(n) =>
      if n !in s.requests then s
      else (match s.requests[n].stage
            case Detecting => MoveTo(s, n, Failed)
            case Substituting => MoveTo(s, n, Closing(false))
            case Forwarding => MoveTo(s, n, Closing(false))
            case Reversing => MoveTo(s, n, Closing(false))
            case Recording => MoveTo(s, n, Closing(false))
            case _ => s)
    case RefuseInsert(n) =>
      if n in s.requests && s.requests[n].stage == Recording
      then MoveTo(s.(cachedHead := Some(Head(s))), n, Closing(false)) else s
    case SweepIdle(now) => s.(world := Life.Next(s.world, Life.Sweep(now), env.timeout))
  }

  function Run(env: Setup, steps: seq<Step>): State {
    if steps == [] then INITIAL else Next(env, Run(env, steps[..|steps| - 1]), steps[|steps| - 1])
  }

  function RunFrom(env: Setup, s: State, steps: seq<Step>): State
    decreases |steps|
  {
    if steps == [] then s else RunFrom(env, Next(env, s, steps[0]), steps[1..])
  }

  lemma {:induction false} RunOn(env: Setup, steps: seq<Step>, more: seq<Step>)
    ensures Run(env, steps + more) == RunFrom(env, Run(env, steps), more)
    decreases |more|
  {
    if more == [] {
      assert steps + more == steps;
    } else {
      var next := steps + [more[0]];
      assert steps + more == next + more[1..] && next[..|next| - 1] == steps;
      RunOn(env, next, more[1..]);
    }
  }

  // ----- Session maps -----

  predicate Active(stage: Stage) {
    stage.Substituting? || stage.Forwarding? || stage.Reversing? || stage.Recording? || stage.Closing?
  }

  /** A request's session map is where its stage says it is. */
  ghost predicate MapOk(w: Life.World, id: string, r: Request) {
    if r.handle == None then r.stage.Detecting? || r.stage.Failed?
    else
      var h := r.handle.value;
      && h < |w.sessions| && w.sessions[h].requestId == id && !r.stage.Detecting?
      && (Active(r.stage) ==>
        h !in w.closing && (w.sessions[h].purged || (id in w.registered && w.registered[id] == h)))
      && (r.stage.Purging? ==>
        if r.stage.popped == None then w.sessions[h].purged else r.stage.popped == Some(h) && h in w.closing)
      && (r.stage.Returned? || r.stage.Failed? ==> w.sessions[h].purged)
  }

  /** Session h belongs to a request. */
  ghost predicate Owned(env: Setup, s: State, h: nat)
    requires h < |s.world.sessions|
  {
    exists n :: n in s.requests && s.requests[n].handle == Some(h) && s.world.sessions[h].requestId == env.ids(n)
  }

  ghost predicate SessionsOk(env: Setup, s: State) {
    && Life.Inv(s.world)
    && (forall n :: n in s.requests ==> MapOk(s.world, env.ids(n), s.requests[n]))
    && (forall h :: 0 <= h < |s.world.sessions| ==> Owned(env, s, h))
  }

  /** What is registered under a request's id is that request's own live map. */
  lemma RegisteredIsOwn(env: Setup, s: State, n: nat)
    requires env.Fresh() && SessionsOk(env, s) && env.ids(n) in s.world.registered
    ensures n in s.requests && s.requests[n].handle == Some(s.world.registered[env.ids(n)])
    ensures s.world.registered[env.ids(n)] < |s.world.sessions|
      && !s.world.sessions[s.world.registered[env.ids(n)]].purged
    ensures s.world.registered[env.ids(n)] !in s.world.closing
  {
    assert Life.RegisteredAlive(s.world, env.ids(n));
    assert Owned(env, s, s.world.registered[env.ids(n)]);
  }

  /** Sessions do not depend on the log. */
  lemma LogIrrelevant(env: Setup, s: State, log: seq<AuditRecord>, head: Option<string>)
    requires SessionsOk(env, s)
    ensures SessionsOk(env, s.(log := log, cachedHead := head))
  {
    OwnersStay(env, s, s.(log := log, cachedHead := head));
  }

  /** A new stage that its map allows keeps the sessions in order. */
  lemma MoveKeepsSessions(env: Setup, s: State, n: nat, stage: Stage)
    requires SessionsOk(env, s) && n in s.requests
    requires MapOk(s.world, env.ids(n), s.requests[n].(stage := stage))
    ensures SessionsOk(env, MoveTo(s, n, stage))
  {
    var t := MoveTo(s, n, stage);
    forall h | 0 <= h < |t.world.sessions| ensures Owned(env, t, h) {
      assert Owned(env, s, h);
      var m :| m in s.requests && s.requests[m].handle == Some(h) && s.world.sessions[h].requestId == env.ids(m);
      assert m in t.requests && t.requests[m].handle == Some(h);
    }
  }

  lemma OpenKeepsSessions(env: Setup, s: State, n: nat, now: int)
    requires env.Fresh() && SessionsOk(env, s) && n in s.requests && s.requests[n].stage.Detecting?
    ensures SessionsOk(env, Advance(env, s, n, now, false))
  {
    var t := Advance(env, s, n, now, false);
    assert MapOk(s.world, env.ids(n), s.requests[n]);
    if env.ids(n) in s.world.registered { RegisteredIsOwn(env, s, n); }
    Life.OpenKeepsInv(s.world, env.ids(n), now, env.timeout);
    forall m | m in t.requests ensures MapOk(t.world, env.ids(m), t.requests[m]) {
      if m != n {
        assert MapOk(s.world, env.ids(m), s.requests[m]);
      } else {
        assert |s.world.sessions| !in s.world.closing;
      }
    }
    forall h | 0 <= h < |t.world.sessions| ensures Owned(env, t, h) {
      if h < |s.world.sessions| {
        assert Owned(env, s, h);
        var m :| m in s.requests && s.requests[m].handle == Some(h) && s.world.sessions[h].requestId == env.ids(m);
        assert m != n && m in t.requests;
      } else {
        assert n in t.requests && t.requests[n].handle == Some(h);
      }
    }
  }

  /** World steps that keep every session's owner and every request's map in order. */
  lemma WorldKeepsSessions(env: Setup, s: State, w: Life.World)
    requires SessionsOk(env, s) && Life.Inv(w) && |w.sessions| == |s.world.sessions|
    requires forall h :: 0 <= h < |w.sessions| ==> w.sessions[h].requestId == s.world.sessions[h].requestId
    requires forall n :: n in s.requests ==> MapOk(w, env.ids(n), s.requests[n])
    ensures SessionsOk(env, s.(world := w))
  {
    forall h | 0 <= h < |w.sessions| ensures Owned(env, s.(world := w), h) {
      assert Owned(env, s, h);
    }
  }

  lemma TouchKeepsSessions(env: Setup, s: State, h: nat, now: int)
    requires SessionsOk(env, s)
    ensures SessionsOk(env, s.(world := Life.Next(s.world, Life.Touch(h, now), env.timeout)))
  {
    var w := Life.Next(s.world, Life.Touch(h, now), env.timeout);
    Life.TouchKeepsInv(s.world, h, now, env.timeout);
    forall n | n in s.requests ensures MapOk(w, env.ids(n), s.requests[n]) {
      assert MapOk(s.world, env.ids(n), s.requests[n]);
    }
    WorldKeepsSessions(env, s, w);
  }

  lemma SweepKeepsSessions(env: Setup, s: State, now: int)
    requires SessionsOk(env, s)
    ensures SessionsOk(env, s.(world := Life.Next(s.world, Life.Sweep(now), env.timeout)))
  {
    var w := Life.Next(s.world, Life.Sweep(now), env.timeout);
    Life.SweepKeepsInv(s.world, now, env.timeout);
    forall n | n in s.requests ensures MapOk(w, env.ids(n), s.requests[n]) {
      assert MapOk(s.world, env.ids(n), s.requests[n]);
      if env.ids(n) in s.world.registered {
        Life.StaleHandle(s.world, env.ids(n), now, env.timeout);
      }
    }
    WorldKeepsSessions(env, s, w);
  }

  lemma PopKeepsSessions(env: Setup, s: State, n: nat)
    requires env.Fresh() && SessionsOk(env, s) && n in s.requests && s.requests[n].stage.Closing?
    ensures SessionsOk(env, Advance(env, s, n, 0, false))
  {
    var t := Advance(env, s, n, 0, false);
    Life.PopKeepsInv(s.world, env.ids(n), env.timeout);
    assert MapOk(s.world, env.ids(n), s.requests[n]);
    if env.ids(n) in s.world.registered {
      RegisteredIsOwn(env, s, n);
    }
    forall m | m in t.requests ensures MapOk(t.world, env.ids(m), t.requests[m]) {
      assert MapOk(s.world, env.ids(m), s.requests[m]);
    }
    OwnersStay(env, s, t);
  }

  /** Finishing one request's close leaves every request's map where its stage says. */
  lemma PurgedMapOk(env: Setup, s: State, n: nat, m: nat)
    requires env.Fresh() && SessionsOk(env, s) && n in s.requests && s.requests[n].stage.Purging? && m in s.requests
    ensures var t := Advance(env, s, n, 0, false);
      m in t.requests && MapOk(t.world, env.ids(m), t.requests[m])
  {
    assert MapOk(s.world, env.ids(n), s.requests[n]);
    assert MapOk(s.world, env.ids(m), s.requests[m]);
  }

  lemma PurgeKeepsSessions(env: Setup, s: State, n: nat)
    requires env.Fresh() && SessionsOk(env, s) && n in s.requests && s.requests[n].stage.Purging?
    ensures SessionsOk(env, Advance(env, s, n, 0, false))
  {
    var t := Advance(env, s, n, 0, false);
    if s.requests[n].stage.popped.Some? {
      Life.FinishKeepsInv(s.world, s.requests[n].stage.popped.value, env.timeout);
    }
    forall m | m in t.requests ensures MapOk(t.world, env.ids(m), t.requests[m]) {
      PurgedMapOk(env, s, n, m);
    }
    OwnersStay(env, s, t);
  }

  lemma OwnersStay(env: Setup, s: State, t: State)
    requires SessionsOk(env, s) && |t.world.sessions| == |s.world.sessions|
    requires forall h :: 0 <= h < |t.world.sessions| ==> t.world.sessions[h].requestId == s.world.sessions[h].requestId
    requires forall n :: n in s.requests ==> n in t.requests && t.requests[n].handle == s.requests[n].handle
    ensures forall h :: 0 <= h < |t.world.sessions| ==> Owned(env, t, h)
  {
    forall h | 0 <= h < |t.world.sessions| ensures Owned(env, t, h) {
      assert Owned(env, s, h);
      var m :| m in s.requests && s.requests[m].handle == Some(h) && s.world.sessions[h].requestId == env.ids(m);
      assert m in t.requests && t.requests[m].handle == Some(h);
    }
  }

  lemma AdvanceKeepsSessions(env: Setup, s: State, n: nat, now: int, touchesMap: bool)
    requires env.Fresh() && SessionsOk(env, s) && n in s.requests
    ensures SessionsOk(env, Advance(env, s, n, now, touchesMap))
  {
    var r := s.requests[n];
    assert MapOk(s.world, env.ids(n), r);
    match r.stage
    case Detecting => OpenKeepsSessions(env, s, n, now);
    case Substituting =>
      if !touchesMap {
        MoveKeepsSessions(env, s, n, Forwarding);
      } else if IsPurged(s, r) {
        MoveKeepsSessions(env, s, n, Closing(false));
      } else {
        TouchKeepsSessions(env, s, r.handle.value, now);
        var t := s.(world := Life.Next(s.world, Life.Touch(r.handle.value, now), env.timeout));
        assert MapOk(t.world, env.ids(n), t.requests[n]);
        MoveKeepsSessions(env, t, n, Forwarding);
      }
    case Forwarding => MoveKeepsSessions(env, s, n, Reversing);
    case Reversing => MoveKeepsSessions(env, s, n, Recording);
    case Recording =>
      var t := Advance(env, s, n, now, touchesMap);
      LogIrrelevant(env, s, t.log, t.cachedHead);
      MoveKeepsSessions(env, s.(log := t.log, cachedHead := t.cachedHead), n, Closing(true));
    case Closing(_) => PopKeepsSessions(env, s, n);
    case Purging(_, _) => PurgeKeepsSessions(env, s, n);
    case Returned =>
    case Failed =>
  }

  lemma NextKeepsSessions(env: Setup, s: State, step: Step)
    requires env.Fresh() && SessionsOk(env, s)
    ensures SessionsOk(env, Next(env, s, step))
  {
    match step
    case Arrive(n) =>
      if n !in s.requests {
        var t := Next(env, s, step);
        OwnersStay(env, s, t);
      }
    case Proceed(n, now, touchesMap) => if n in s.requests { AdvanceKeepsSessions(env, s, n, now, touchesMap); }
    case Raise(n) =>
      if n in s.requests {
        assert MapOk(s.world, env.ids(n), s.requests[n]);
        if s.requests[n].stage.Detecting? { MoveKeepsSessions(env, s, n, Failed); }
        else if Active(s.requests[n].stage) && !s.requests[n].stage.Closing? {
          MoveKeepsSessions(env, s, n, Closing(false));
        }
      }
    case RefuseInsert(n) =>
      if n in s.requests && s.requests[n].stage == Recording {
        assert MapOk(s.world, env.ids(n), s.requests[n]);
        LogIrrelevant(env, s, s.log, Some(Head(s)));
        MoveKeepsSessions(env, s.(cachedHead := Some(Head(s))), n, Closing(false));
      }
    case SweepIdle(now) => SweepKeepsSessions(env, s, now);
  }

  // ----- Audit records -----

  predicate Recorded(stage: Stage) {
    stage.Returned? || (stage.Closing? && stage.recorded) || (stage.Purging? && stage.recorded)
  }

  /** Record i is that of a request past recording. */
  ghost predicate OfRecorded(env: Setup, s: State, rec: AuditRecord) {
    exists n :: n in s.requests && Recorded(s.requests[n].stage) && rec.body == env.bodies(n)
  }

  ghost predicate HasRecord(env: Setup, s: State, n: nat) {
    exists i :: 0 <= i < |s.log| && s.log[i].body == env.bodies(n)
  }

  /** The log is honest, the cached head is its head, and it holds the records of exactly the requests past
      recording. */
  ghost predicate LogOk(env: Setup, s: State) {
    && Honest(env.crypto, s.log) && Head(s) == LatestHash(s.log)
    && (forall i :: 0 <= i < |s.log| ==> OfRecorded(env, s, s.log[i]))
    && (forall n :: n in s.requests && Recorded(s.requests[n].stage) ==> HasRecord(env, s, n))
  }

  /** Steps that write no record and change no request's recorded state. */
  lemma SameRecords(env: Setup, s: State, t: State)
    requires LogOk(env, s) && t.log == s.log && Head(t) == Head(s)
    requires forall n :: n in s.requests ==> n in t.requests
    requires forall n :: n in t.requests ==>
      (Recorded(t.requests[n].stage) <==> n in s.requests && Recorded(s.requests[n].stage))
    ensures LogOk(env, t)
  {
    forall i | 0 <= i < |t.log| ensures OfRecorded(env, t, t.log[i]) {
      assert OfRecorded(env, s, s.log[i]);
    }
    forall n | n in t.requests && Recorded(t.requests[n].stage) ensures HasRecord(env, t, n) {
      assert HasRecord(env, s, n);
    }
  }

  lemma RecordKeepsLog(env: Setup, s: State, n: nat, now: int, touchesMap: bool)
    requires env.Fresh() && LogOk(env, s) && n in s.requests && s.requests[n].stage.Recording?
    ensures LogOk(env, Advance(env, s, n, now, touchesMap))
  {
    var t := Advance(env, s, n, now, touchesMap);
    forall i | 0 <= i < |s.log| ensures s.log[i].body.recordId != env.bodies(n).recordId {
      assert OfRecorded(env, s, s.log[i]);
    }
    RecordKeepsHonest(env.crypto, s.log, env.bodies(n));
    forall i | 0 <= i < |t.log| ensures OfRecorded(env, t, t.log[i]) {
      if i < |s.log| {
        assert OfRecorded(env, s, s.log[i]);
        var m :| m in s.requests && Recorded(s.requests[m].stage) && s.log[i].body == env.bodies(m);
        assert m in t.requests && Recorded(t.requests[m].stage);
      } else {
        assert n in t.requests && t.log[i].body == env.bodies(n);
      }
    }
    forall m | m in t.requests && Recorded(t.requests[m].stage) ensures HasRecord(env, t, m) {
      if m == n {
        assert t.log[|s.log|].body == env.bodies(n);
      } else {
        assert HasRecord(env, s, m);
        var i :| 0 <= i < |s.log| && s.log[i].body == env.bodies(m);
        assert t.log[i] == s.log[i];
      }
    }
  }

  /** A request's update that changes nothing about its being recorded. */
  lemma UpdateKeepsLog(env: Setup, s: State, n: nat, r: Request, w: Life.World)
    requires LogOk(env, s)
    requires Recorded(r.stage) <==> n in s.requests && Recorded(s.requests[n].stage)
    ensures LogOk(env, State(w, s.log, s.cachedHead, s.requests[n := r]))
  {
    SameRecords(env, s, State(w, s.log, s.cachedHead, s.requests[n := r]));
  }

  lemma AdvanceKeepsLog(env: Setup, s: State, n: nat, now: int, touchesMap: bool)
    requires env.Fresh() && LogOk(env, s) && n in s.requests
    ensures LogOk(env, Advance(env, s, n, now, touchesMap))
  {
    if s.requests[n].stage.Recording? {
      RecordKeepsLog(env, s, n, now, touchesMap);
    } else {
      var t := Advance(env, s, n, now, touchesMap);
      UpdateKeepsLog(env, s, n, t.requests[n], t.world);
      if s.requests[n].stage.Returned? || s.requests[n].stage.Failed? {
        assert t == s;
      } else {
        assert t == State(t.world, s.log, s.cachedHead, s.requests[n := t.requests[n]]);
      }
    }
  }

  lemma NextKeepsLog(env: Setup, s: State, step: Step)
    requires env.Fresh() && LogOk(env, s)
    ensures LogOk(env, Next(env, s, step))
  {
    match step
    case Arrive(n) => if n !in s.requests { UpdateKeepsLog(env, s, n, Request(Detecting, None), s.world); }
    case Proceed(n, now, touchesMap) => if n in s.requests { AdvanceKeepsLog(env, s, n, now, touchesMap); }
    case Raise(n) =>
      var t := Next(env, s, step);
      if n in s.requests && t != s { UpdateKeepsLog(env, s, n, t.requests[n], s.world); }
    case RefuseInsert(n) => SameRecords(env, s, Next(env, s, step));
    case SweepIdle(now) => SameRecords(env, s, Next(env, s, step));
  }

  lemma {:induction false} RunsInOrder(env: Setup, steps: seq<Step>)
    requires env.Fresh()
    ensures SessionsOk(env, Run(env, steps)) && LogOk(env, Run(env, steps))
  {
    if steps == [] {
    } else {
      RunsInOrder(env, steps[..|steps| - 1]);
      NextKeepsSessions(env, Run(env, steps[..|steps| - 1]), steps[|steps| - 1]);
      NextKeepsLog(env, Run(env, steps[..|steps| - 1]), steps[|steps| - 1]);
    }
  }

  // ----- What every run guarantees -----

  /** However a request ended, and whatever ran beside it, the map it opened is purged. */
  lemma EndedMeansPurged(env: Setup, steps: seq<Step>, n: nat)
    requires env.Fresh() && n in Run(env, steps).requests
    requires var stage := Run(env, steps).requests[n].stage; stage.Returned? || stage.Failed?
    ensures var s := Run(env, steps);
      (s.requests[n].stage.Returned? ==> s.requests[n].handle.Some?)
      && (s.requests[n].handle.Some? ==> IsPurged(s, s.requests[n]) && env.ids(n) !in s.world.registered)
  {
    RunsInOrder(env, steps);
    var s := Run(env, steps);
    assert MapOk(s.world, env.ids(n), s.requests[n]);
    if env.ids(n) in s.world.registered {
      RegisteredIsOwn(env, s, n);
    }
  }

  /** The log holds a record for request n at i. */
  predicate RecordOf(env: Setup, s: State, n: nat, i: int) {
    0 <= i < |s.log| && s.log[i].body.requestId == env.ids(n)
  }

  /** A response is returned only once the request's audit record is in the log, and it is there exactly
      once; a request that fails before the record is written leaves none. */
  lemma ReturnedMeansRecordedOnce(env: Setup, steps: seq<Step>, n: nat)
    requires env.Fresh() && n in Run(env, steps).requests
    ensures var s := Run(env, steps);
      && (Recorded(s.requests[n].stage) <==> exists i :: RecordOf(env, s, n, i))
      && (forall i, j :: RecordOf(env, s, n, i) && RecordOf(env, s, n, j) ==> i == j)
      && (s.requests[n].stage.Returned? ==> Recorded(s.requests[n].stage))
      && (s.requests[n].stage.Failed? ==> !Recorded(s.requests[n].stage))
  {
    RunsInOrder(env, steps);
    var s := Run(env, steps);
    forall i | RecordOf(env, s, n, i) ensures s.log[i].body == env.bodies(n) && Recorded(s.requests[n].stage) {
      assert OfRecorded(env, s, s.log[i]);
    }
    if Recorded(s.requests[n].stage) {
      assert HasRecord(env, s, n);
      var i :| 0 <= i < |s.log| && s.log[i].body == env.bodies(n);
      assert RecordOf(env, s, n, i);
    }
  }

  /** Refused inserts and failing requests never break the chain: the log of every run verifies. */
  lemma RunsVerify(env: Setup, steps: seq<Step>)
    requires env.Fresh()
    ensures Verifies(env.crypto, Run(env, steps).log)
  {
    RunsInOrder(env, steps);
    VerifiesIsChained(env.crypto, Run(env, steps).log);
  }

  /** A refused insert leaves the log as it was and the head a later record is sealed on as it was. */
  lemma {:induction false} RefusedInsertLeavesNoTrace(env: Setup, steps: seq<Step>, n: nat)
    requires env.Fresh()
    ensures var s := Run(env, steps);
      var t := Next(env, s, RefuseInsert(n));
      t.log == s.log && Head(t) == Head(s) == LatestHash(t.log)
  {
    RunsInOrder(env, steps);
  }

  /** The request is on its way to failing. */
  predicate Doomed(s: State, n: nat) {
    && n in s.requests
    && var stage := s.requests[n].stage;
       stage == Closing(false) || stage.Failed? || (stage.Purging? && !stage.recorded)
  }

  lemma {:induction false} DoomedStays(env: Setup, s: State, more: seq<Step>)
    ensures forall n :: Doomed(s, n) ==> Doomed(RunFrom(env, s, more), n)
    decreases |more|
  {
    if more == [] {
    } else {
      DoomedStays(env, Next(env, s, more[0]), more[1..]);
    }
  }

  /** A request that reaches for its map after the idle sweep has purged it never returns a response, whatever comes
      next, and leaves no record. */
  lemma UseAfterPurgeFails(env: Setup, steps: seq<Step>, n: nat, now: int, more: seq<Step>)
    requires env.Fresh()
    requires var s := Run(env, steps);
      n in s.requests && s.requests[n].stage.Substituting? && IsPurged(s, s.requests[n])
    ensures var t := Run(env, steps + [Proceed(n, now, true)] + more);
      n in t.requests && !t.requests[n].stage.Returned? && forall i :: !RecordOf(env, t, n, i)
  {
    var s := Run(env, steps);
    var all := steps + [Proceed(n, now, true)] + more;
    RunOn(env, steps, [Proceed(n, now, true)]);
    RunOn(env, steps + [Proceed(n, now, true)], more);
    assert [Proceed(n, now, true)][1..] == [];
    assert Doomed(Next(env, s, Proceed(n, now, true)), n);
    DoomedStays(env, Next(env, s, Proceed(n, now, true)), more);
    ReturnedMeansRecordedOnce(env, all, n);
  }
}
