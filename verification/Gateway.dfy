/** One request from merge to close, in code: what the caller gets, what is recorded, what is purged, and that
    the request machine describes it. */
module Gateway {
  import opened Results
  import opened Detections
  import opened Merge
  import opened MergeProperties
  import opened SessionMap
  import opened Substitution
  import opened Replies
  import opened RoundTrip
  import opened Audit
  import opened PostgresAudit
  import opened SessionStore
  import Life = SessionLifecycle
  import Pipeline

  datatype GatewayError = SubstitutionFailed | UpstreamFailed | AuditFailed

  /** What the caller gets: the reversed reply when the upstream answered and the audit record was written, the
      first failure otherwise. */
  ghost predicate Outcome(r: Result<string, GatewayError>, upstream: string -> Option<string>, original: string,
      accepted: seq<Detection>, synth: Synthesizer, insertFails: bool)
  {
    var pieces := Layout(original, accepted, synth);
    var reply := upstream(Sanitised(pieces));
    r == if reply == None then Failure(UpstreamFailed)
         else if insertFails then Failure(AuditFailed)
         else Success(ReverseAll(reply.value, EchoCandidates(pieces)).text)
  }

  /** A response comes with exactly its own record on top of the log, a failure with none. */
  function TableAfter(r: Result<string, GatewayError>, crypto: Crypto, body: Body, before: seq<AuditRecord>):
    seq<AuditRecord>
  {
    if r.Success? then before + [Sealed(crypto, body, LatestHash(before))] else before
  }

  /** The session maps after a request that opened and closed its own. */
  function WorldAfter(w: Life.World, requestId: string, now: int, timeout: int): Life.World {
    Life.AfterClose(Life.Next(w, Life.Open(requestId, now), timeout), requestId, timeout)
  }

  /** The body of the `try`: everything that can fail while the session map is open. */
  method Exchange(sm: EncryptedSessionMap, audit: PostgresAuditBackend, crypto: Crypto, original: string,
      accepted: seq<Detection>, synth: Synthesizer, upstream: string -> Option<string>, ner: string -> seq<string>,
      body: Body, insertFails: bool, nonces: nat -> nat, now: int)
    returns (r: Result<string, GatewayError>)
    requires sm.Valid() && !sm.purged && sm.encrypted == map[] && sm.lastAccess == now && audit.Valid()
    requires forall d :: d in accepted ==> d.Valid() && SEPARATOR !in d.entityType
    modifies sm, audit
    ensures sm.Valid() && !sm.purged && sm.lastAccess == now && audit.Valid()
    ensures Outcome(r, upstream, original, accepted, synth, insertFails)
    ensures audit.table == TableAfter(r, crypto, body, old(audit.table))
  {
    ghost var pieces := Layout(original, accepted, synth);
    assert sm.Plain() == map[];
    var forward := ApplySubstitution(original, accepted, sm, synth, nonces, now);
    if forward.Failure? {
      return Failure(SubstitutionFailed);
    }
    assert sm.Plain() == EntriesOf(pieces);
    var reply := upstream(forward.value.sanitisedText);
    if reply == None {
      return Failure(UpstreamFailed);
    }
    var reversed := ReverseSubstitution(
      reply.value, sm, forward.value.componentsBySynthetic, ner(reply.value), now);
    if reversed.Failure? {
      return Failure(SubstitutionFailed);
    }
    assert SortedCandidates(IndexOf(pieces), sm.Plain()) == EchoCandidates(pieces);
    var recorded := audit.Record(crypto, body, insertFails);
    if recorded.Failure? {
      return Failure(AuditFailed);
    }
    return Success(reversed.value.text);
  }

  /** `open` for a fresh request id. */
  method OpenSession(store: SessionMapStore, requestId: string, customerId: string, now: int)
    returns (sm: EncryptedSessionMap)
    requires store.Valid() && Life.Inv(store.State()) && requestId !in store.maps
    modifies store
    ensures store.Valid() && Life.Inv(store.State())
    ensures store.State() == Life.Next(old(store.State()), Life.Open(requestId, now), store.idleTimeout)
    ensures fresh(sm) && sm.Valid() && !sm.purged && sm.encrypted == map[] && sm.lastAccess == now
    ensures store.created == old(store.created) + [sm] && requestId in store.maps && store.maps[requestId] == sm
  {
    Life.OpenKeepsInv(store.State(), requestId, now, store.idleTimeout);
    sm := store.Open(requestId, customerId, now);
    assert store.created[store.handles[requestId]] == sm;
    assert store.View(sm) == store.State().sessions[|store.created| - 1];
  }

  /** The exchange with a map of the store, which the store does not notice. */
  method ExchangeIn(store: SessionMapStore, sm: EncryptedSessionMap, audit: PostgresAuditBackend, crypto: Crypto,
      original: string, accepted: seq<Detection>, synth: Synthesizer, upstream: string -> Option<string>,
      ner: string -> seq<string>, body: Body, insertFails: bool, nonces: nat -> nat, now: int)
    returns (r: Result<string, GatewayError>)
    requires store.Valid() && sm in store.created && audit.Valid()
    requires sm.Valid() && !sm.purged && sm.encrypted == map[] && sm.lastAccess == now
    requires forall d :: d in accepted ==> d.Valid() && SEPARATOR !in d.entityType
    modifies sm, audit
    ensures store.Valid() && store.State() == old(store.State()) && audit.Valid()
    ensures Outcome(r, upstream, original, accepted, synth, insertFails)
    ensures audit.table == TableAfter(r, crypto, body, old(audit.table))
  {
    r := Exchange(sm, audit, crypto, original, accepted, synth, upstream, ner, body, insertFails, nonces, now);
    assert store.Views() == old(store.Views());
  }

  /** The `try` and its `finally`: whatever the exchange comes to, the map is closed. */
  method ExchangeAndClose(store: SessionMapStore, sm: EncryptedSessionMap, audit: PostgresAuditBackend, crypto: Crypto,
      original: string, accepted: seq<Detection>, synth: Synthesizer, upstream: string -> Option<string>,
      ner: string -> seq<string>, requestId: string, body: Body, insertFails: bool, nonces: nat -> nat, now: int)
    returns (r: Result<string, GatewayError>)
    requires store.Valid() && Life.Inv(store.State()) && audit.Valid()
    requires requestId in store.maps && store.maps[requestId] == sm && sm in store.created
    requires sm.Valid() && !sm.purged && sm.encrypted == map[] && sm.lastAccess == now
    requires forall d :: d in accepted ==> d.Valid() && SEPARATOR !in d.entityType
    modifies store, store.created, audit
    ensures store.Valid() && Life.Inv(store.State()) && audit.Valid()
    ensures store.State() == Life.AfterClose(old(store.State()), requestId, store.idleTimeout)
    ensures store.created == old(store.created) && requestId !in store.maps && sm.purged
    ensures audit.table == TableAfter(r, crypto, body, old(audit.table))
    ensures Outcome(r, upstream, original, accepted, synth, insertFails)
  {
    r := ExchangeIn(
      store, sm, audit, crypto, original, accepted, synth, upstream, ner, body, insertFails, nonces, now);
    store.Close(requestId);
  }

  /** The exchange inside its session: opened before, closed on every way out. */
  method InSession(store: SessionMapStore, audit: PostgresAuditBackend, crypto: Crypto, original: string,
      accepted: seq<Detection>, synth: Synthesizer, upstream: string -> Option<string>, ner: string -> seq<string>,
      requestId: string, customerId: string, body: Body, insertFails: bool, nonces: nat -> nat, now: int)
    returns (r: Result<string, GatewayError>)
    requires store.Valid() && Life.Inv(store.State()) && requestId !in store.maps && audit.Valid()
    requires forall d :: d in accepted ==> d.Valid() && SEPARATOR !in d.entityType
    modifies store, store.created, audit
    ensures store.Valid() && Life.Inv(store.State()) && audit.Valid()
    ensures store.State() == WorldAfter(old(store.State()), requestId, now, store.idleTimeout)
    ensures requestId !in store.maps
    ensures |store.created| == |old(store.created)| + 1 && store.created[|old(store.created)|].purged
    ensures audit.table == TableAfter(r, crypto, body, old(audit.table))
    ensures Outcome(r, upstream, original, accepted, synth, insertFails)
  {
    var sm := OpenSession(store, requestId, customerId, now);
    r := ExchangeAndClose(
      store, sm, audit, crypto, original, accepted, synth, upstream, ner, requestId, body, insertFails, nonces, now);
  }

  /** The request from the merge on. */
  method HandleChat(store: SessionMapStore, audit: PostgresAuditBackend, crypto: Crypto, cfg: MergeConfig,
      original: string, detections: seq<Detection>, exceptions: seq<ExceptionEntry>, synth: Synthesizer,
      upstream: string -> Option<string>, ner: string -> seq<string>,
      requestId: string, customerId: string, body: Body, insertFails: bool, nonces: nat -> nat, now: int)
    returns (r: Result<string, GatewayError>)
    requires store.Valid() && Life.Inv(store.State()) && requestId !in store.maps && audit.Valid()
    requires forall d :: d in detections ==> d.Valid() && SEPARATOR !in d.entityType
    modifies store, store.created, audit
    ensures store.Valid() && Life.Inv(store.State()) && audit.Valid()
    // The request's map is gone from the registry and purged, whatever happened, and no other map has changed.
    ensures requestId !in store.maps
    ensures |store.created| == |old(store.created)| + 1 && store.created[|old(store.created)|].purged
    ensures store.State() == WorldAfter(old(store.State()), requestId, now, store.idleTimeout)
    ensures audit.table == TableAfter(r, crypto, body, old(audit.table))
    ensures Outcome(r, upstream, original, Merged(cfg, original, detections, exceptions).accepted, synth, insertFails)
    // An upstream that repeats what it was sent gives the caller the original text back.
    ensures var pieces := Layout(original, Merged(cfg, original, detections, exceptions).accepted, synth);
      r.Success? && upstream(Sanitised(pieces)) == Some(Sanitised(pieces)) && CleanEcho(pieces, EchoCandidates(pieces))
      ==> (Consistent(pieces) ==> r.value == original)
          && (EqualLengths(pieces) ==> (r.value == original <==> Consistent(pieces)))
    // One that writes a clean reply of its own gives the caller every form in it as what it stands for.
    ensures var pieces := Layout(original, Merged(cfg, original, detections, exceptions).accepted, synth);
      forall reply | upstream(Sanitised(pieces)) == Some(Written(reply, map[])) ::
        r.Success? && CleanReply(reply, EchoCandidates(pieces))
        ==> r.value == Written(reply, Meaning(EchoCandidates(pieces)))
  {
    var merged := MergeDetections(cfg, original, detections, exceptions);
    AcceptedValid(cfg, original, detections, exceptions);
    r := InSession(store, audit, crypto, original, merged.accepted, synth, upstream, ner, requestId, customerId, body,
      insertFails, nonces, now);
    ghost var pieces := Layout(original, merged.accepted, synth);
    if CleanEcho(pieces, EchoCandidates(pieces)) {
      EchoRoundTrip(cfg, original, detections, exceptions, synth);
    }
    forall reply | CleanReply(reply, EchoCandidates(pieces))
      ensures ReverseAll(Written(reply, map[]), EchoCandidates(pieces)).text
           == Written(reply, Meaning(EchoCandidates(pieces)))
    {
      CleanReplyReversed(reply, EchoCandidates(pieces));
    }
  }

  /** Accepted detections are valid and keep their entity types. */
  lemma AcceptedValid(cfg: MergeConfig, original: string, ds: seq<Detection>, exceptions: seq<ExceptionEntry>)
    requires forall d :: d in ds ==> d.Valid() && SEPARATOR !in d.entityType
    ensures forall a :: a in Merged(cfg, original, ds, exceptions).accepted ==> a.Valid() && SEPARATOR !in a.entityType
  {
    var accepted := Merged(cfg, original, ds, exceptions).accepted;
    forall a | a in accepted ensures a.Valid() && SEPARATOR !in a.entityType {
      var k :| 0 <= k < |accepted| && accepted[k] == a;
      Dominance(cfg, original, ds, exceptions, k);
      var d :| d in ds && SameButConfidence(a, d);
      assert a.(confidence := d.confidence).entityType == a.entityType;
    }
  }

  // ----- The request machine -----

  /** What goes on between open and close. */
  function MiddleSteps(n: nat, now: int, r: Result<string, GatewayError>): seq<Pipeline.Step> {
    var go := Pipeline.Proceed(n, now, true);
    match r
    case Success(_) => [go, go, go, go]
    case Failure(SubstitutionFailed) => [Pipeline.Raise(n)]
    case Failure(UpstreamFailed) => [go, Pipeline.Raise(n)]
    case Failure(AuditFailed) => [go, go, go, Pipeline.RefuseInsert(n)]
  }

  /** The machine's steps for request n, alone, with this outcome. */
  function RequestSteps(n: nat, now: int, r: Result<string, GatewayError>): seq<Pipeline.Step> {
    var go := Pipeline.Proceed(n, now, true);
    [Pipeline.Arrive(n), go] + (MiddleSteps(n, now, r) + [go, go])
  }

  lemma OneStep(env: Pipeline.Setup, s: Pipeline.State, step: Pipeline.Step, rest: seq<Pipeline.Step>)
    ensures Pipeline.RunFrom(env, s, [step] + rest) == Pipeline.RunFrom(env, Pipeline.Next(env, s, step), rest)
  {
    assert ([step] + rest)[1..] == rest;
  }

  lemma {:induction false} RunInTwo(
      env: Pipeline.Setup, s: Pipeline.State, a: seq<Pipeline.Step>, b: seq<Pipeline.Step>)
    ensures Pipeline.RunFrom(env, s, a + b) == Pipeline.RunFrom(env, Pipeline.RunFrom(env, s, a), b)
    decreases |a|
  {
    if a == [] {
      assert a + b == b;
    } else {
      assert (a + b)[1..] == a[1..] + b;
      RunInTwo(env, Pipeline.Next(env, s, a[0]), a[1..], b);
    }
  }

  /** The request's own map was opened at `now` and is alive. */
  ghost predicate JustOpened(s: Pipeline.State, n: nat, now: int) {
    && n in s.requests && s.requests[n].stage.Substituting? && s.requests[n].handle.Some?
    && var h := s.requests[n].handle.value;
       h < |s.world.sessions| && !s.world.sessions[h].purged && s.world.sessions[h].lastAccess == now
  }

  /** From open to close the machine leaves the maps alone and writes the record exactly with a response. */
  lemma MiddleRun(env: Pipeline.Setup, s: Pipeline.State, n: nat, now: int, r: Result<string, GatewayError>)
    requires JustOpened(s, n, now) && Pipeline.Head(s) == LatestHash(s.log)
    ensures var t := Pipeline.RunFrom(env, s, MiddleSteps(n, now, r));
      && t.world == s.world && t.log == TableAfter(r, env.crypto, env.bodies(n), s.log)
      && n in t.requests && t.requests[n].stage == Pipeline.Closing(r.Success?)
  {
    var go := Pipeline.Proceed(n, now, true);
    var h := s.requests[n].handle.value;
    assert s.world.sessions[h := s.world.sessions[h].(lastAccess := now)] == s.world.sessions;
    var s1 := Pipeline.Next(env, s, go);
    assert s1 == Pipeline.MoveTo(s, n, Pipeline.Forwarding);
    var s2 := Pipeline.Next(env, s1, go);
    var s3 := Pipeline.Next(env, s2, go);
    match r
    case Success(_) =>
      OneStep(env, s, go, [go, go, go]);
      OneStep(env, s1, go, [go, go]);
      OneStep(env, s2, go, [go]);
      OneStep(env, s3, go, []);
    case Failure(SubstitutionFailed) =>
      OneStep(env, s, Pipeline.Raise(n), []);
    case Failure(UpstreamFailed) =>
      OneStep(env, s, go, [Pipeline.Raise(n)]);
      OneStep(env, s1, Pipeline.Raise(n), []);
    case Failure(AuditFailed) =>
      OneStep(env, s, go, [go, go, Pipeline.RefuseInsert(n)]);
      OneStep(env, s1, go, [go, Pipeline.RefuseInsert(n)]);
      OneStep(env, s2, go, [Pipeline.RefuseInsert(n)]);
      OneStep(env, s3, Pipeline.RefuseInsert(n), []);
  }

  /** Both halves of close. */
  lemma CloseRun(env: Pipeline.Setup, s: Pipeline.State, n: nat, now: int)
    requires n in s.requests && s.requests[n].stage.Closing? && env.ids(n) in s.world.registered
    ensures var go := Pipeline.Proceed(n, now, true);
      var t := Pipeline.RunFrom(env, s, [go, go]);
      && t.world == Life.AfterClose(s.world, env.ids(n), env.timeout) && t.log == s.log && n in t.requests
      && t.requests[n].stage == if s.requests[n].stage.recorded then Pipeline.Returned else Pipeline.Failed
  {
    var go := Pipeline.Proceed(n, now, true);
    OneStep(env, s, go, [go]);
    OneStep(env, Pipeline.Next(env, s, go), go, []);
  }

  /** Every request handled in code is a run of the machine: from any state in order, the machine's steps for
      this outcome leave the session maps and the log exactly as `HandleChat` leaves its store and table. */
  lemma HandledIsRun(
      env: Pipeline.Setup, steps: seq<Pipeline.Step>, n: nat, now: int, r: Result<string, GatewayError>)
    requires env.Fresh() && n !in Pipeline.Run(env, steps).requests
    ensures var s := Pipeline.Run(env, steps);
      var t := Pipeline.Run(env, steps + RequestSteps(n, now, r));
      && t.world == WorldAfter(s.world, env.ids(n), now, env.timeout)
      && t.log == TableAfter(r, env.crypto, env.bodies(n), s.log)
      && n in t.requests && t.requests[n].stage == if r.Success? then Pipeline.Returned else Pipeline.Failed
  {
    var s := Pipeline.Run(env, steps);
    Pipeline.RunsInOrder(env, steps);
    Pipeline.RunOn(env, steps, RequestSteps(n, now, r));
    RequestRun(env, s, n, now, r);
  }

  lemma RequestRun(env: Pipeline.Setup, s: Pipeline.State, n: nat, now: int, r: Result<string, GatewayError>)
    requires n !in s.requests && Pipeline.Head(s) == LatestHash(s.log)
    ensures var t := Pipeline.RunFrom(env, s, RequestSteps(n, now, r));
      && t.world == WorldAfter(s.world, env.ids(n), now, env.timeout)
      && t.log == TableAfter(r, env.crypto, env.bodies(n), s.log)
      && n in t.requests && t.requests[n].stage == if r.Success? then Pipeline.Returned else Pipeline.Failed
  {
    var go := Pipeline.Proceed(n, now, true);
    var middle := MiddleSteps(n, now, r);
    var arrived := Pipeline.Next(env, s, Pipeline.Arrive(n));
    var begun := Pipeline.Next(env, arrived, go);
    assert RequestSteps(n, now, r) == [Pipeline.Arrive(n)] + ([go] + (middle + [go, go]));
    OneStep(env, s, Pipeline.Arrive(n), [go] + (middle + [go, go]));
    OneStep(env, arrived, go, middle + [go, go]);
    RunInTwo(env, begun, middle, [go, go]);
    assert JustOpened(begun, n, now) && env.ids(n) in begun.world.registered;
    MiddleRun(env, begun, n, now, r);
    CloseRun(env, Pipeline.RunFrom(env, begun, middle), n, now);
  }

  /** The next request of a run of the machine: handled in code, it leaves store and table where the machine's own
      steps for its outcome take that run. */
  method HandleNext(store: SessionMapStore, audit: PostgresAuditBackend, crypto: Crypto, cfg: MergeConfig,
      original: string, detections: seq<Detection>, exceptions: seq<ExceptionEntry>, synth: Synthesizer,
      upstream: string -> Option<string>, ner: string -> seq<string>, requestId: string, customerId: string,
      body: Body, insertFails: bool, nonces: nat -> nat, now: int, ghost env: Pipeline.Setup,
      ghost steps: seq<Pipeline.Step>, ghost n: nat)
    returns (r: Result<string, GatewayError>)
    requires store.Valid() && audit.Valid()
    requires forall d :: d in detections ==> d.Valid() && SEPARATOR !in d.entityType
    requires env.Fresh() && env.crypto == crypto && env.timeout == store.idleTimeout
    requires env.ids(n) == requestId && env.bodies(n) == body && n !in Pipeline.Run(env, steps).requests
    requires store.State() == Pipeline.Run(env, steps).world && audit.table == Pipeline.Run(env, steps).log
    modifies store, store.created, audit
    ensures store.Valid() && audit.Valid()
    ensures Outcome(r, upstream, original, Merged(cfg, original, detections, exceptions).accepted, synth, insertFails)
    ensures var t := Pipeline.Run(env, steps + RequestSteps(n, now, r));
      && store.State() == t.world && audit.table == t.log
      && n in t.requests && t.requests[n].stage == if r.Success? then Pipeline.Returned else Pipeline.Failed
  {
    ghost var s := Pipeline.Run(env, steps);
    Pipeline.RunsInOrder(env, steps);
    if requestId in s.world.registered {
      Pipeline.RegisteredIsOwn(env, s, n);
    }
    assert requestId !in store.State().registered;
    r := HandleChat(store, audit, crypto, cfg, original, detections, exceptions, synth, upstream, ner, requestId,
      customerId, body, insertFails, nonces, now);
    HandledIsRun(env, steps, n, now, r);
  }
}
