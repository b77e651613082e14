/** Concurrent writers: `record` reads the head and appends in two separately locked steps. */
module AuditInterleaving {
  import opened Audit

  /** The two steps of one call of `record`. */
  datatype Step =
    | ReadHead(call: nat)
    | Append(call: nat)

  datatype State = State(log: seq<AuditRecord>, heads: map<nat, string>)

  /** An append without a head read is not a step of any call and does nothing. */
  function Next(crypto: Crypto, bodies: nat -> Body, s: State, step: Step): State {
    match step
    case ReadHead(c) => s.(heads := s.heads[c := LatestHash(s.log)])
    case Append(c) =>
      if c in s.heads then State(s.log + [Sealed(crypto, bodies(c), s.heads[c])], s.heads - {c}) else s
  }

  function Run(crypto: Crypto, bodies: nat -> Body, steps: seq<Step>): State {
    if steps == [] then State([], map[])
    else Next(crypto, bodies, Run(crypto, bodies, steps[..|steps| - 1]), steps[|steps| - 1])
  }

  /** Every call takes each of its steps at most once, the read before the append; some may never append. */
  ghost predicate WellFormed(steps: seq<Step>) {
    && (forall i, j :: 0 <= i < j < |steps| ==> steps[i] != steps[j])
    && (forall k :: 0 <= k < |steps| && steps[k].Append? ==>
          exists r :: 0 <= r < k && steps[r] == ReadHead(steps[k].call))
  }

  ghost predicate DistinctCalls(bodies: nat -> Body) {
    forall c, d :: c != d ==> bodies(c).recordId != bodies(d).recordId
  }

  ghost predicate Quiet(steps: seq<Step>, from: int, to: int) {
    forall m :: 0 <= from <= m < to <= |steps| ==> !steps[m].Append?
  }

  /** No append falls between a call's own read and its append. */
  ghost predicate Undisturbed(steps: seq<Step>) {
    forall r, k :: 0 <= r < k < |steps| && steps[k].Append? && steps[r] == ReadHead(steps[k].call) ==>
      Quiet(steps, r, k)
  }

  lemma WellFormedPrefix(steps: seq<Step>, n: nat)
    requires WellFormed(steps) && n <= |steps|
    ensures WellFormed(steps[..n])
  {
    var p := steps[..n];
    forall k | 0 <= k < |p| && p[k].Append? ensures exists r :: 0 <= r < k && p[r] == ReadHead(p[k].call) {
      var r :| 0 <= r < k && steps[r] == ReadHead(steps[k].call);
      assert p[r] == steps[r];
    }
  }

  /** A call that has read and not yet appended holds the head as it was when it read. */
  lemma {:induction false} HeadAsRead(crypto: Crypto, bodies: nat -> Body, steps: seq<Step>, r: nat)
    requires WellFormed(steps) && r < |steps| && steps[r].ReadHead?
    requires Append(steps[r].call) !in steps
    ensures var s := Run(crypto, bodies, steps); var c := steps[r].call;
      c in s.heads && s.heads[c] == LatestHash(Run(crypto, bodies, steps[..r]).log)
  {
    var n := |steps| - 1;
    var front := steps[..n];
    if r == n {
    } else {
      WellFormedPrefix(steps, n);
      assert front[r] == steps[r] && front[..r] == steps[..r];
      HeadAsRead(crypto, bodies, front, r);
      assert steps[n] in steps && steps[n] != steps[r];
    }
  }

  /** A step that appends, appends its call's record. */
  lemma AppendTakesEffect(crypto: Crypto, bodies: nat -> Body, steps: seq<Step>, r: nat)
    requires WellFormed(steps) && steps != [] && steps[|steps| - 1].Append?
    requires r < |steps| - 1 && steps[r] == ReadHead(steps[|steps| - 1].call)
    ensures var n := |steps| - 1;
      Run(crypto, bodies, steps).log == Run(crypto, bodies, steps[..n]).log
        + [Sealed(crypto, bodies(steps[n].call), LatestHash(Run(crypto, bodies, steps[..r]).log))]
  {
    HeadStillHeld(crypto, bodies, steps, r);
    var before, last := Run(crypto, bodies, steps[..|steps| - 1]), steps[|steps| - 1];
    assert Run(crypto, bodies, steps) == Next(crypto, bodies, before, last);
  }

  /** Before its append the call holds the head it read. */
  lemma HeadStillHeld(crypto: Crypto, bodies: nat -> Body, steps: seq<Step>, r: nat)
    requires WellFormed(steps) && steps != [] && steps[|steps| - 1].Append?
    requires r < |steps| - 1 && steps[r] == ReadHead(steps[|steps| - 1].call)
    ensures var c := steps[|steps| - 1].call;
      var s := Run(crypto, bodies, steps[..|steps| - 1]);
      c in s.heads && s.heads[c] == LatestHash(Run(crypto, bodies, steps[..r]).log)
  {
    var front := steps[..|steps| - 1];
    WellFormedPrefix(steps, |steps| - 1);
    NotYetAppended(steps);
    assert front[r] == steps[r] && front[..r] == steps[..r];
    HeadAsRead(crypto, bodies, front, r);
  }

  lemma NotYetAppended(steps: seq<Step>)
    requires WellFormed(steps) && steps != []
    ensures steps[|steps| - 1] !in steps[..|steps| - 1]
  {
  }

  lemma ReadKeepsLog(crypto: Crypto, bodies: nat -> Body, steps: seq<Step>)
    requires steps != [] && steps[|steps| - 1].ReadHead?
    ensures Run(crypto, bodies, steps).log == Run(crypto, bodies, steps[..|steps| - 1]).log
  {
  }

  lemma QuietLast(steps: seq<Step>, r: nat)
    requires r < |steps|
    ensures Quiet(steps, r, |steps|) <==> Quiet(steps[..|steps| - 1], r, |steps| - 1) && !steps[|steps| - 1].Append?
  {
    assert forall m :: 0 <= m < |steps| - 1 ==> steps[..|steps| - 1][m] == steps[m];
  }

  /** The log only grows, and stays as it is exactly while nothing is appended. */
  lemma {:induction false} LogGrows(crypto: Crypto, bodies: nat -> Body, steps: seq<Step>, r: nat)
    requires WellFormed(steps) && r <= |steps|
    ensures Run(crypto, bodies, steps[..r]).log <= Run(crypto, bodies, steps).log
    ensures Run(crypto, bodies, steps[..r]).log == Run(crypto, bodies, steps).log <==> Quiet(steps, r, |steps|)
    decreases |steps|
  {
    if r == |steps| {
      assert steps[..r] == steps;
    } else {
      var n := |steps| - 1;
      WellFormedPrefix(steps, n);
      assert steps[..n][..r] == steps[..r];
      LogGrows(crypto, bodies, steps[..n], r);
      QuietLast(steps, r);
      if steps[n].Append? {
        var q :| 0 <= q < n && steps[q] == ReadHead(steps[n].call);
        AppendTakesEffect(crypto, bodies, steps, q);
      } else {
        ReadKeepsLog(crypto, bodies, steps);
      }
    }
  }

  /** rec carries the body of a call that appended, under its hash. */
  ghost predicate OfCall(crypto: Crypto, bodies: nat -> Body, steps: seq<Step>, rec: AuditRecord) {
    rec.contentHash == crypto.hash(rec.body) && exists c :: Append(c) in steps && rec.body == bodies(c)
  }

  /** The log holds the bodies of calls that appended, each once. */
  ghost predicate FromCalls(crypto: Crypto, bodies: nat -> Body, steps: seq<Step>, log: seq<AuditRecord>) {
    DistinctIds(log) && forall i :: 0 <= i < |log| ==> OfCall(crypto, bodies, steps, log[i])
  }

  lemma FromCallsSnoc(
      crypto: Crypto, bodies: nat -> Body, steps: seq<Step>, log: seq<AuditRecord>, c: nat, rec: AuditRecord)
    requires DistinctCalls(bodies) && FromCalls(crypto, bodies, steps, log) && Append(c) !in steps
    requires rec.body == bodies(c) && rec.contentHash == crypto.hash(rec.body)
    ensures FromCalls(crypto, bodies, steps + [Append(c)], log + [rec])
  {
    FromCallsMore(crypto, bodies, steps, log, Append(c));
    assert Append(c) in steps + [Append(c)];
    forall i | 0 <= i < |log| ensures log[i].body.recordId != rec.body.recordId {
      assert OfCall(crypto, bodies, steps, log[i]);
      var d :| Append(d) in steps && log[i].body == bodies(d);
    }
  }

  lemma FromCallsMore(crypto: Crypto, bodies: nat -> Body, steps: seq<Step>, log: seq<AuditRecord>, step: Step)
    requires FromCalls(crypto, bodies, steps, log)
    ensures FromCalls(crypto, bodies, steps + [step], log)
  {
    assert forall x :: x in steps ==> x in steps + [step];
    forall i | 0 <= i < |log| ensures OfCall(crypto, bodies, steps + [step], log[i]) {
      assert OfCall(crypto, bodies, steps, log[i]);
    }
  }

  lemma {:induction false} LogOfCalls(crypto: Crypto, bodies: nat -> Body, steps: seq<Step>)
    requires WellFormed(steps) && DistinctCalls(bodies)
    ensures FromCalls(crypto, bodies, steps, Run(crypto, bodies, steps).log)
  {
    if steps == [] {
    } else {
      var n := |steps| - 1;
      var before := Run(crypto, bodies, steps[..n]).log;
      WellFormedPrefix(steps, n);
      LogOfCalls(crypto, bodies, steps[..n]);
      assert steps[..n] + [steps[n]] == steps;
      if steps[n].Append? {
        var q :| 0 <= q < n && steps[q] == ReadHead(steps[n].call);
        AppendTakesEffect(crypto, bodies, steps, q);
        var c := steps[n].call;
        FromCallsSnoc(crypto, bodies, steps[..n], before, c,
          Sealed(crypto, bodies(c), LatestHash(Run(crypto, bodies, steps[..q]).log)));
      } else {
        ReadKeepsLog(crypto, bodies, steps);
        FromCallsMore(crypto, bodies, steps[..n], before, steps[n]);
      }
    }
  }

  /** Heads read at different lengths of one log differ. */
  lemma HeadsDiffer(
      crypto: Crypto, bodies: nat -> Body, steps: seq<Step>, log: seq<AuditRecord>, was: seq<AuditRecord>)
    requires crypto.SoundOn(log) && FromCalls(crypto, bodies, steps, log) && was <= log
    ensures LatestHash(was) == LatestHash(log) <==> was == log
  {
    if log != [] {
      assert log[|log| - 1] in log && OfCall(crypto, bodies, steps, log[|log| - 1]);
      if was != [] {
        assert was[|was| - 1] == log[|was| - 1] && log[|was| - 1] in log
          && OfCall(crypto, bodies, steps, log[|was| - 1]);
      }
    }
  }

  lemma UndisturbedLast(steps: seq<Step>, r: nat)
    requires WellFormed(steps) && steps != [] && r < |steps| - 1
    requires steps[|steps| - 1].Append? && steps[r] == ReadHead(steps[|steps| - 1].call)
    ensures Undisturbed(steps) <==> Undisturbed(steps[..|steps| - 1]) && Quiet(steps[..|steps| - 1], r, |steps| - 1)
  {
    var n := |steps| - 1;
    var front := steps[..n];
    assert forall m :: 0 <= m < n ==> front[m] == steps[m];
    forall p, k | 0 <= p < k < n ensures Quiet(front, p, k) <==> Quiet(steps, p, k) {
    }
    assert Quiet(front, r, n) <==> Quiet(steps, r, n);
    if Undisturbed(front) && Quiet(front, r, n) {
      forall p, k | 0 <= p < k < |steps| && steps[k].Append? && steps[p] == ReadHead(steps[k].call)
        ensures Quiet(steps, p, k)
      {
        if k < n { assert front[p] == ReadHead(front[k].call); } else { assert p == r; }
      }
    }
    if Undisturbed(steps) {
      forall p, k | 0 <= p < k < n && front[k].Append? && front[p] == ReadHead(front[k].call)
        ensures Quiet(front, p, k)
      {
        assert steps[p] == ReadHead(steps[k].call);
      }
    }
  }

  lemma UndisturbedRead(steps: seq<Step>)
    requires steps != [] && steps[|steps| - 1].ReadHead?
    ensures Undisturbed(steps) <==> Undisturbed(steps[..|steps| - 1])
  {
    var n := |steps| - 1;
    var front := steps[..n];
    assert forall m :: 0 <= m < n ==> front[m] == steps[m];
    forall p, k | 0 <= p < k < n ensures Quiet(front, p, k) <==> Quiet(steps, p, k) {
    }
  }

  lemma ChainedSnoc(crypto: Crypto, log: seq<AuditRecord>, body: Body, prev: string)
    ensures Chained(crypto, log + [Sealed(crypto, body, prev)]) <==> Chained(crypto, log) && prev == LatestHash(log)
  {
    var next := log + [Sealed(crypto, body, prev)];
    forall i | 0 <= i < |log| ensures SealedAt(crypto, next, i) <==> SealedAt(crypto, log, i) {
      assert next[..i] == log[..i];
    }
    assert next[..|log|] == log;
    assert SealedAt(crypto, next, |log|) <==> prev == LatestHash(log);
  }

  /** Appending on a head read earlier keeps the chain exactly when the log has not moved since. */
  lemma AppendOnStaleHead(crypto: Crypto, bodies: nat -> Body, steps: seq<Step>, log: seq<AuditRecord>,
      was: seq<AuditRecord>, body: Body)
    requires crypto.SoundOn(log) && FromCalls(crypto, bodies, steps, log) && was <= log
    ensures Chained(crypto, log + [Sealed(crypto, body, LatestHash(was))]) <==> Chained(crypto, log) && was == log
  {
    HeadsDiffer(crypto, bodies, steps, log, was);
    ChainedSnoc(crypto, log, body, LatestHash(was));
  }

  /** The step at n appends on the head read at r: the chain holds after it if it held before and nothing was
      appended in between. */
  lemma AppendKeepsChain(crypto: Crypto, bodies: nat -> Body, steps: seq<Step>, r: nat)
    requires WellFormed(steps) && DistinctCalls(bodies) && steps != [] && r < |steps| - 1
    requires steps[|steps| - 1].Append? && steps[r] == ReadHead(steps[|steps| - 1].call)
    requires crypto.SoundOn(Run(crypto, bodies, steps[..|steps| - 1]).log)
    ensures var front := steps[..|steps| - 1];
      Chained(crypto, Run(crypto, bodies, steps).log)
      <==> Chained(crypto, Run(crypto, bodies, front).log) && Quiet(front, r, |front|)
  {
    var front, call := steps[..|steps| - 1], steps[|steps| - 1].call;
    var log, was := Run(crypto, bodies, front).log, Run(crypto, bodies, steps[..r]).log;
    AppendTakesEffect(crypto, bodies, steps, r);
    HeadMoved(crypto, bodies, steps, r);
    AppendOnStaleHead(crypto, bodies, front, log, was, bodies(call));
  }

  lemma HeadMoved(crypto: Crypto, bodies: nat -> Body, steps: seq<Step>, r: nat)
    requires WellFormed(steps) && DistinctCalls(bodies) && steps != [] && r < |steps|
    ensures var front := steps[..|steps| - 1];
      var log, was := Run(crypto, bodies, front).log, Run(crypto, bodies, steps[..r]).log;
      FromCalls(crypto, bodies, front, log) && was <= log && (was == log <==> Quiet(front, r, |front|))
  {
    var front := steps[..|steps| - 1];
    WellFormedPrefix(steps, |steps| - 1);
    assert front[..r] == steps[..r];
    LogGrows(crypto, bodies, front, r);
    LogOfCalls(crypto, bodies, front);
  }

  lemma SoundBefore(crypto: Crypto, bodies: nat -> Body, steps: seq<Step>)
    requires WellFormed(steps) && steps != [] && crypto.SoundOn(Run(crypto, bodies, steps).log)
    ensures crypto.SoundOn(Run(crypto, bodies, steps[..|steps| - 1]).log)
  {
    var n := |steps| - 1;
    LogGrows(crypto, bodies, steps, n);
    assert forall x :: x in Run(crypto, bodies, steps[..n]).log ==> x in Run(crypto, bodies, steps).log;
  }

  lemma {:induction false} ChainedExactlyWhenUndisturbed(crypto: Crypto, bodies: nat -> Body, steps: seq<Step>)
    requires WellFormed(steps) && DistinctCalls(bodies) && crypto.SoundOn(Run(crypto, bodies, steps).log)
    ensures Chained(crypto, Run(crypto, bodies, steps).log) <==> Undisturbed(steps)
  {
    if steps == [] {
    } else {
      var n := |steps| - 1;
      WellFormedPrefix(steps, n);
      SoundBefore(crypto, bodies, steps);
      ChainedExactlyWhenUndisturbed(crypto, bodies, steps[..n]);
      if steps[n].Append? {
        var r :| 0 <= r < n && steps[r] == ReadHead(steps[n].call);
        AppendKeepsChain(crypto, bodies, steps, r);
        UndisturbedLast(steps, r);
      } else {
        ReadKeepsLog(crypto, bodies, steps);
        UndisturbedRead(steps);
      }
    }
  }

  /** In any interleaving of writers whose records do not collide, the log verifies if and only if no append
      fell between an append and its own head read. */
  lemma VerifiesExactlyWhenUndisturbed(crypto: Crypto, bodies: nat -> Body, steps: seq<Step>)
    requires WellFormed(steps) && DistinctCalls(bodies) && crypto.SoundOn(Run(crypto, bodies, steps).log)
    ensures Verifies(crypto, Run(crypto, bodies, steps).log) <==> Undisturbed(steps)
  {
    VerifiesIsChained(crypto, Run(crypto, bodies, steps).log);
    ChainedExactlyWhenUndisturbed(crypto, bodies, steps);
  }

  /** Undisturbed calls leave a log that verifies, whatever the hash. */
  lemma {:induction false} UndisturbedChains(crypto: Crypto, bodies: nat -> Body, steps: seq<Step>)
    requires WellFormed(steps) && Undisturbed(steps)
    ensures Chained(crypto, Run(crypto, bodies, steps).log)
  {
    if steps == [] {
    } else {
      var n := |steps| - 1;
      WellFormedPrefix(steps, n);
      if steps[n].Append? {
        var r :| 0 <= r < n && steps[r] == ReadHead(steps[n].call);
        assert steps[..n][..r] == steps[..r];
        UndisturbedLast(steps, r);
        UndisturbedChains(crypto, bodies, steps[..n]);
        AppendTakesEffect(crypto, bodies, steps, r);
        LogGrows(crypto, bodies, steps[..n], r);
        var log := Run(crypto, bodies, steps[..n]).log;
        ChainedSnoc(crypto, log, bodies(steps[n].call), LatestHash(log));
      } else {
        UndisturbedRead(steps);
        UndisturbedChains(crypto, bodies, steps[..n]);
        ReadKeepsLog(crypto, bodies, steps);
      }
    }
  }

  /** Calls whose read is directly followed by their own append, whatever their order, leave a log that verifies. */
  lemma AtomicCallsVerify(crypto: Crypto, bodies: nat -> Body, steps: seq<Step>)
    requires WellFormed(steps)
    requires forall k :: 0 < k < |steps| && steps[k].Append? ==> steps[k - 1] == ReadHead(steps[k].call)
    ensures Verifies(crypto, Run(crypto, bodies, steps).log)
  {
    forall r, k | 0 <= r < k < |steps| && steps[k].Append? && steps[r] == ReadHead(steps[k].call)
      ensures Quiet(steps, r, k)
    {
      assert steps[k - 1] == steps[r];
    }
    UndisturbedChains(crypto, bodies, steps);
    VerifiesIsChained(crypto, Run(crypto, bodies, steps).log);
  }
}
