/** Concurrent writers on the Postgres backend: `latest_hash` takes no lock, so the look at the cache, the select and
    the write to the cache are steps of their own, and a head may reach a call, or the cache, late. */
module PostgresInterleaving {
  import opened Results
  import opened Audit
  import opened AuditInterleaving

  /** A head, and how long the table was when it was its head. */
  datatype Head = Head(hash: string, at: nat)

  /** Where one call of `record` stands. */
  datatype Phase = Missed | Selected(head: Head) | Holding(head: Head) | Done

  /** The steps of a call: the look at the cache; on a miss the select and the write to the cache; the insert. */
  datatype DbStep =
    | Look(call: nat)
    | Select(call: nat)
    | Store(call: nat)
    | Insert(call: nat, refused: bool)

  datatype Db = Db(table: seq<AuditRecord>, cache: Option<Head>, calls: map<nat, Phase>)
  {
    function Now(): Head { Head(LatestHash(table), |table|) }
  }

  const EMPTY_DB := Db([], None, map[])

  /** A step that is not the call's next one does nothing. */
  function NextDb(crypto: Crypto, bodies: nat -> Body, s: Db, step: DbStep): Db {
    match step
    case Look(c) =>
      if c in s.calls then s
      else s.(calls := s.calls[c := if s.cache.Some? then Holding(s.cache.value) else Missed])
    case Select(c) =>
      if c in s.calls && s.calls[c].Missed? then s.(calls := s.calls[c := Selected(s.Now())]) else s
    case Store(c) =>
      if c in s.calls && s.calls[c].Selected?
      then s.(cache := Some(s.calls[c].head), calls := s.calls[c := Holding(s.calls[c].head)]) else s
    case Insert(c, refused) =>
      if !Ready(s, c) then s
      else if refused then s.(calls := s.calls[c := Done])
      else
        var t := s.table + [Sealed(crypto, bodies(c), s.calls[c].head.hash)];
        Db(t, Some(Head(LatestHash(t), |t|)), s.calls[c := Done])
  }

  predicate Ready(s: Db, c: nat) {
    c in s.calls && s.calls[c].Holding?
  }

  function RunDb(crypto: Crypto, bodies: nat -> Body, steps: seq<DbStep>): Db {
    if steps == [] then EMPTY_DB
    else NextDb(crypto, bodies, RunDb(crypto, bodies, steps[..|steps| - 1]), steps[|steps| - 1])
  }

  // ----- What every run keeps -----

  /** h was the table's head when the table was that long. */
  ghost predicate WasHead(table: seq<AuditRecord>, h: Head) {
    h.at <= |table| && h.hash == LatestHash(table[..h.at])
  }

  /** Record i carries the body of a finished call, under its hash. */
  ghost predicate FromCall(crypto: Crypto, bodies: nat -> Body, s: Db, rec: AuditRecord) {
    rec.contentHash == crypto.hash(rec.body) && exists c :: c in s.calls && s.calls[c].Done? && rec.body == bodies(c)
  }

  ghost predicate HeadKept(table: seq<AuditRecord>, p: Phase) {
    p.Selected? || p.Holding? ==> WasHead(table, p.head)
  }

  ghost predicate DbOk(crypto: Crypto, bodies: nat -> Body, s: Db) {
    && DistinctIds(s.table)
    && (forall i :: 0 <= i < |s.table| ==> FromCall(crypto, bodies, s, s.table[i]))
    && (s.cache.Some? ==> WasHead(s.table, s.cache.value))
    && (forall c :: c in s.calls ==> HeadKept(s.table, s.calls[c]))
  }

  lemma NowWasHead(s: Db)
    ensures WasHead(s.table, s.Now())
  {
    assert s.table[..|s.table|] == s.table;
  }

  lemma StillWasHead(table: seq<AuditRecord>, rec: AuditRecord, h: Head)
    requires WasHead(table, h)
    ensures WasHead(table + [rec], h)
  {
    assert (table + [rec])[..h.at] == table[..h.at];
  }

  /** A step that leaves the table alone. */
  lemma SameTableOk(crypto: Crypto, bodies: nat -> Body, s: Db, t: Db)
    requires DbOk(crypto, bodies, s) && t.table == s.table
    requires t.cache.Some? ==> WasHead(t.table, t.cache.value)
    requires forall c :: c in t.calls ==> HeadKept(t.table, t.calls[c])
    requires forall c :: c in s.calls && s.calls[c].Done? ==> c in t.calls && t.calls[c].Done?
    ensures DbOk(crypto, bodies, t)
  {
    forall i | 0 <= i < |t.table| ensures FromCall(crypto, bodies, t, t.table[i]) {
      assert FromCall(crypto, bodies, s, s.table[i]);
      var c :| c in s.calls && s.calls[c].Done? && s.table[i].body == bodies(c);
      assert c in t.calls && t.calls[c].Done?;
    }
  }

  lemma InsertOk(crypto: Crypto, bodies: nat -> Body, s: Db, c: nat)
    requires DistinctCalls(bodies) && DbOk(crypto, bodies, s) && Ready(s, c)
    ensures DbOk(crypto, bodies, NextDb(crypto, bodies, s, Insert(c, false)))
  {
    var t := NextDb(crypto, bodies, s, Insert(c, false));
    var rec := Sealed(crypto, bodies(c), s.calls[c].head.hash);
    assert t.table == s.table + [rec];
    forall i | 0 <= i < |s.table| ensures s.table[i].body.recordId != rec.body.recordId {
      assert FromCall(crypto, bodies, s, s.table[i]);
    }
    forall i | 0 <= i < |t.table| ensures FromCall(crypto, bodies, t, t.table[i]) {
      if i < |s.table| {
        assert FromCall(crypto, bodies, s, s.table[i]);
        var d :| d in s.calls && s.calls[d].Done? && s.table[i].body == bodies(d);
        assert d in t.calls && t.calls[d].Done?;
      } else {
        assert c in t.calls && t.calls[c].Done?;
      }
    }
    NowWasHead(t);
    forall d | d in t.calls ensures HeadKept(t.table, t.calls[d]) {
      if d != c && (t.calls[d].Selected? || t.calls[d].Holding?) {
        assert HeadKept(s.table, s.calls[d]);
        StillWasHead(s.table, rec, t.calls[d].head);
      }
    }
  }

  lemma NextDbOk(crypto: Crypto, bodies: nat -> Body, s: Db, step: DbStep)
    requires DistinctCalls(bodies) && DbOk(crypto, bodies, s)
    ensures DbOk(crypto, bodies, NextDb(crypto, bodies, s, step))
  {
    NowWasHead(s);
    var t := NextDb(crypto, bodies, s, step);
    if step.Insert? && Ready(s, step.call) && !step.refused {
      InsertOk(crypto, bodies, s, step.call);
    } else {
      SameTableOk(crypto, bodies, s, t);
    }
  }

  lemma {:induction false} RunDbOk(crypto: Crypto, bodies: nat -> Body, steps: seq<DbStep>)
    requires DistinctCalls(bodies)
    ensures DbOk(crypto, bodies, RunDb(crypto, bodies, steps))
  {
    if steps == [] {
    } else {
      var n := |steps| - 1;
      RunDbOk(crypto, bodies, steps[..n]);
      NextDbOk(crypto, bodies, RunDb(crypto, bodies, steps[..n]), steps[n]);
    }
  }

  // ----- When the table verifies -----

  /** The record this step inserts, if any, is sealed on a head the table has not moved on from. */
  ghost predicate UpToDate(s: Db, step: DbStep) {
    step.Insert? && !step.refused && Ready(s, step.call) ==> s.calls[step.call].head.at == |s.table|
  }

  /** No insert went through between the select that each inserted head goes back to, or the insert that wrote
      it to the cache, and the insert it is used for. */
  ghost predicate AllUpToDate(crypto: Crypto, bodies: nat -> Body, steps: seq<DbStep>) {
    forall k :: 0 <= k < |steps| ==> UpToDate(RunDb(crypto, bodies, steps[..k]), steps[k])
  }

  /** Heads of different lengths differ. */
  lemma HeadTellsLength(crypto: Crypto, bodies: nat -> Body, s: Db, h: Head)
    requires DbOk(crypto, bodies, s) && crypto.SoundOn(s.table) && WasHead(s.table, h)
    ensures h.hash == LatestHash(s.table) <==> h.at == |s.table|
  {
    var table := s.table;
    if h.at == |table| {
      assert table[..h.at] == table;
    } else {
      var last := table[|table| - 1];
      assert last in table && FromCall(crypto, bodies, s, last);
      if h.at > 0 {
        var was := table[h.at - 1];
        assert table[..h.at][h.at - 1] == was;
        assert was in table && FromCall(crypto, bodies, s, was);
      }
    }
  }

  lemma InsertKeepsChain(crypto: Crypto, bodies: nat -> Body, s: Db, step: DbStep)
    requires DbOk(crypto, bodies, s) && crypto.SoundOn(s.table)
    ensures Chained(crypto, NextDb(crypto, bodies, s, step).table) <==> Chained(crypto, s.table) && UpToDate(s, step)
  {
    if step.Insert? && !step.refused && Ready(s, step.call) {
      var h := s.calls[step.call].head;
      assert HeadKept(s.table, s.calls[step.call]);
      HeadTellsLength(crypto, bodies, s, h);
      ChainedSnoc(crypto, s.table, bodies(step.call), h.hash);
    }
  }

  lemma SoundEarlier(crypto: Crypto, bodies: nat -> Body, s: Db, step: DbStep)
    requires crypto.SoundOn(NextDb(crypto, bodies, s, step).table)
    ensures crypto.SoundOn(s.table)
  {
    assert forall r :: r in s.table ==> r in NextDb(crypto, bodies, s, step).table;
  }

  lemma AllUpToDateLast(crypto: Crypto, bodies: nat -> Body, steps: seq<DbStep>)
    requires steps != []
    ensures var n := |steps| - 1;
      AllUpToDate(crypto, bodies, steps)
      <==> AllUpToDate(crypto, bodies, steps[..n]) && UpToDate(RunDb(crypto, bodies, steps[..n]), steps[n])
  {
    var n := |steps| - 1;
    forall k | 0 <= k < n ensures steps[..n][..k] == steps[..k] && steps[..n][k] == steps[k] {
    }
    if AllUpToDate(crypto, bodies, steps[..n]) && UpToDate(RunDb(crypto, bodies, steps[..n]), steps[n]) {
      forall k | 0 <= k < |steps| ensures UpToDate(RunDb(crypto, bodies, steps[..k]), steps[k]) {
        if k < n {
          assert UpToDate(RunDb(crypto, bodies, steps[..n][..k]), steps[..n][k]);
        }
      }
    }
    if AllUpToDate(crypto, bodies, steps) {
      forall k | 0 <= k < n ensures UpToDate(RunDb(crypto, bodies, steps[..n][..k]), steps[..n][k]) {
        assert UpToDate(RunDb(crypto, bodies, steps[..k]), steps[k]);
      }
    }
  }

  lemma {:induction false} ChainedExactlyWhenUpToDate(crypto: Crypto, bodies: nat -> Body, steps: seq<DbStep>)
    requires DistinctCalls(bodies) && crypto.SoundOn(RunDb(crypto, bodies, steps).table)
    ensures Chained(crypto, RunDb(crypto, bodies, steps).table) <==> AllUpToDate(crypto, bodies, steps)
  {
    if steps == [] {
    } else {
      var n := |steps| - 1;
      var before := RunDb(crypto, bodies, steps[..n]);
      SoundEarlier(crypto, bodies, before, steps[n]);
      ChainedExactlyWhenUpToDate(crypto, bodies, steps[..n]);
      RunDbOk(crypto, bodies, steps[..n]);
      InsertKeepsChain(crypto, bodies, before, steps[n]);
      AllUpToDateLast(crypto, bodies, steps);
    }
  }

  /** In any interleaving of writers whose records do not collide, the table verifies if and only if every record
      was inserted while the head it is sealed on, wherever the call had it from, was still the table's. */
  lemma VerifiesExactlyWhenUpToDate(crypto: Crypto, bodies: nat -> Body, steps: seq<DbStep>)
    requires DistinctCalls(bodies) && crypto.SoundOn(RunDb(crypto, bodies, steps).table)
    ensures Verifies(crypto, RunDb(crypto, bodies, steps).table) <==> AllUpToDate(crypto, bodies, steps)
  {
    VerifiesIsChained(crypto, RunDb(crypto, bodies, steps).table);
    ChainedExactlyWhenUpToDate(crypto, bodies, steps);
  }

  // ----- The cache -----

  /** The cache is filled with the table's head, and no call is on its way to fill it. */
  ghost predicate Warm(s: Db) {
    && s.cache == Some(s.Now())
    && forall c :: c in s.calls ==> !s.calls[c].Missed? && !s.calls[c].Selected?
  }

  /** From then on the cache is never late: only what is read and used around another insert can be. */
  lemma WarmStaysWarm(crypto: Crypto, bodies: nat -> Body, s: Db, step: DbStep)
    requires Warm(s)
    ensures Warm(NextDb(crypto, bodies, s, step))
    ensures step.Look? && step.call !in s.calls ==>
      NextDb(crypto, bodies, s, step).calls[step.call] == Holding(s.Now())
  {
  }

  /** An insert that goes through directly follows its call's first step, the look at the cache. */
  ghost predicate LooksFirst(crypto: Crypto, bodies: nat -> Body, steps: seq<DbStep>, k: nat)
    requires 0 < k < |steps|
  {
    steps[k].Insert? && !steps[k].refused && Ready(RunDb(crypto, bodies, steps[..k]), steps[k].call) ==>
      steps[k - 1] == Look(steps[k].call) && steps[k].call !in RunDb(crypto, bodies, steps[..k - 1]).calls
  }

  lemma {:induction false} WarmFrom(crypto: Crypto, bodies: nat -> Body, steps: seq<DbStep>, w: nat)
    requires w <= |steps| && Warm(RunDb(crypto, bodies, steps[..w]))
    ensures Warm(RunDb(crypto, bodies, steps))
    decreases |steps|
  {
    if w == |steps| {
      assert steps[..w] == steps;
    } else {
      var n := |steps| - 1;
      assert steps[..n][..w] == steps[..w];
      WarmFrom(crypto, bodies, steps[..n], w);
      WarmStaysWarm(crypto, bodies, RunDb(crypto, bodies, steps[..n]), steps[n]);
    }
  }

  /** Once the cache is warm and the table in order, calls that look and insert in one go keep it in order, whatever
      was refused and in whatever order they come. */
  lemma {:induction false} WarmRunsVerify(crypto: Crypto, bodies: nat -> Body, steps: seq<DbStep>, w: nat)
    requires w <= |steps| && Warm(RunDb(crypto, bodies, steps[..w]))
    requires Chained(crypto, RunDb(crypto, bodies, steps[..w]).table)
    requires forall k :: w < k < |steps| ==> LooksFirst(crypto, bodies, steps, k)
    requires w < |steps| ==> !steps[w].Insert?
    ensures Verifies(crypto, RunDb(crypto, bodies, steps).table)
    decreases |steps|
  {
    VerifiesIsChained(crypto, RunDb(crypto, bodies, steps).table);
    if w == |steps| {
      assert steps[..w] == steps;
    } else {
      var n := |steps| - 1;
      var front := steps[..n];
      assert front[..w] == steps[..w];
      forall k | w < k < n ensures LooksFirst(crypto, bodies, front, k) {
        assert LooksFirst(crypto, bodies, steps, k);
        assert front[..k] == steps[..k] && front[..k - 1] == steps[..k - 1];
      }
      WarmRunsVerify(crypto, bodies, front, w);
      VerifiesIsChained(crypto, RunDb(crypto, bodies, front).table);
      if n > w {
        WarmInsert(crypto, bodies, steps, w);
      }
    }
  }

  /** The last step of such a run. */
  lemma WarmInsert(crypto: Crypto, bodies: nat -> Body, steps: seq<DbStep>, w: nat)
    requires w < |steps| - 1 && Warm(RunDb(crypto, bodies, steps[..w]))
    requires LooksFirst(crypto, bodies, steps, |steps| - 1)
    requires Chained(crypto, RunDb(crypto, bodies, steps[..|steps| - 1]).table)
    ensures Chained(crypto, RunDb(crypto, bodies, steps).table)
  {
    var n := |steps| - 1;
    var s := RunDb(crypto, bodies, steps[..n]);
    var step := steps[n];
    if step.Insert? && !step.refused && Ready(s, step.call) {
      assert steps[..n - 1][..w] == steps[..w] && steps[..n][..n - 1] == steps[..n - 1];
      WarmFrom(crypto, bodies, steps[..n - 1], w);
      WarmStaysWarm(crypto, bodies, RunDb(crypto, bodies, steps[..n - 1]), steps[n - 1]);
      ChainedSnoc(crypto, s.table, bodies(step.call), s.calls[step.call].head.hash);
    }
  }

  lemma RunPrefix(crypto: Crypto, bodies: nat -> Body, steps: seq<DbStep>, k: nat)
    requires k < |steps|
    ensures RunDb(crypto, bodies, steps[..k + 1]) == NextDb(crypto, bodies, RunDb(crypto, bodies, steps[..k]), steps[k])
  {
    assert steps[..k + 1][..k] == steps[..k];
  }

  /** Calls 0 and 1 find the cache empty. Call 1 records; then call 0 writes the head it selected before to the
      cache and is refused. Call 2 runs undisturbed, and is sealed on that head all the same. */
  const LATE_CACHE: seq<DbStep> := [
    Look(0), Select(0), Look(1), Select(1), Store(1), Insert(1, false), Store(0), Insert(0, true),
    Look(2), Insert(2, false)]

  lemma LateCacheBreaksChain(crypto: Crypto, bodies: nat -> Body)
    requires DistinctCalls(bodies) && crypto.SoundOn(RunDb(crypto, bodies, LATE_CACHE).table)
    ensures !Verifies(crypto, RunDb(crypto, bodies, LATE_CACHE).table)
  {
    LateCacheFirst(crypto, bodies);
    LateCacheRecord(crypto, bodies);
    LateCacheStore(crypto, bodies);
    LateCacheRefused(crypto, bodies);
    assert !UpToDate(RunDb(crypto, bodies, LATE_CACHE[..9]), LATE_CACHE[9]);
    VerifiesExactlyWhenUpToDate(crypto, bodies, LATE_CACHE);
  }

  const EMPTY_HEAD := Head(GENESIS_HASH, 0)

  lemma LateCacheFirst(crypto: Crypto, bodies: nat -> Body)
    ensures RunDb(crypto, bodies, LATE_CACHE[..4])
         == Db([], None, map[0 := Selected(EMPTY_HEAD), 1 := Selected(EMPTY_HEAD)])
  {
    assert LATE_CACHE[..0] == [];
    RunPrefix(crypto, bodies, LATE_CACHE, 0);
    RunPrefix(crypto, bodies, LATE_CACHE, 1);
    RunPrefix(crypto, bodies, LATE_CACHE, 2);
    RunPrefix(crypto, bodies, LATE_CACHE, 3);
  }

  lemma LateCacheRecord(crypto: Crypto, bodies: nat -> Body)
    requires RunDb(crypto, bodies, LATE_CACHE[..4])
          == Db([], None, map[0 := Selected(EMPTY_HEAD), 1 := Selected(EMPTY_HEAD)])
    ensures var rec := Sealed(crypto, bodies(1), GENESIS_HASH);
      RunDb(crypto, bodies, LATE_CACHE[..6])
      == Db([rec], Some(Head(rec.contentHash, 1)), map[0 := Selected(EMPTY_HEAD), 1 := Done])
  {
    RunPrefix(crypto, bodies, LATE_CACHE, 4);
    RunPrefix(crypto, bodies, LATE_CACHE, 5);
  }

  lemma LateCacheStore(crypto: Crypto, bodies: nat -> Body)
    requires var rec := Sealed(crypto, bodies(1), GENESIS_HASH);
      RunDb(crypto, bodies, LATE_CACHE[..6])
      == Db([rec], Some(Head(rec.contentHash, 1)), map[0 := Selected(EMPTY_HEAD), 1 := Done])
    ensures RunDb(crypto, bodies, LATE_CACHE[..7])
         == Db([Sealed(crypto, bodies(1), GENESIS_HASH)], Some(EMPTY_HEAD), map[0 := Holding(EMPTY_HEAD), 1 := Done])
  {
    RunPrefix(crypto, bodies, LATE_CACHE, 6);
  }

  lemma LateCacheRefused(crypto: Crypto, bodies: nat -> Body)
    requires RunDb(crypto, bodies, LATE_CACHE[..7])
          == Db([Sealed(crypto, bodies(1), GENESIS_HASH)], Some(EMPTY_HEAD), map[0 := Holding(EMPTY_HEAD), 1 := Done])
    ensures var s := RunDb(crypto, bodies, LATE_CACHE[..9]);
      |s.table| == 1 && Ready(s, 2) && s.calls[2].head == EMPTY_HEAD
  {
    RunPrefix(crypto, bodies, LATE_CACHE, 7);
    RunPrefix(crypto, bodies, LATE_CACHE, 8);
  }
}
