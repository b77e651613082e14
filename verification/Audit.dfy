/** The audit chain: sealing records, verifying a log, and what a log that verifies can be. */
module Audit {
  import opened Results
  import opened Sequences
  import opened Text
  import opened SessionMap

  /** The seven fields that go into the content hash; `occurredAt` stands for the clock's 64 bits. */
  datatype Body = Body(
    recordId: string, customerId: string, requestId: string, eventType: string,
    occurredAt: int, payloadNonce: nat, payloadCiphertext: string)

  datatype AuditRecord = AuditRecord(body: Body, contentHash: string, prevHash: string, hmacSignature: string)

  datatype ChainBroken =
    | PrevHashMismatch(recordId: string, expected: string, got: string)
    | ContentHashMismatch(recordId: string)
    | SignatureInvalid(recordId: string)

  datatype RecordError = MissingTenantScope | WriteFailed

  const GENESIS_HASH: string := "0000000000000000000000000000000000000000000000000000000000000000"

  /** The hash of a canonically encoded body, and the keyed MAC of a message. */
  datatype Crypto = Crypto(hash: Body -> string, mac: string -> string)
  {
    /** Among these records' bodies no two collide, and no digest is the genesis value or contains the separator. */
    ghost predicate SoundOn(records: seq<AuditRecord>) {
      && (forall a, b {:trigger hash(a.body), hash(b.body)} ::
            a in records && b in records && hash(a.body) == hash(b.body) ==> a.body == b.body)
      && (forall a {:trigger hash(a.body)} :: a in records ==> '|' !in hash(a.body) && hash(a.body) != GENESIS_HASH)
    }
  }

  /** What the signature covers. */
  function Message(contentHash: string, prevHash: string): string {
    contentHash + "|" + prevHash
  }

  function LatestHash(records: seq<AuditRecord>): string {
    if records == [] then GENESIS_HASH else records[|records| - 1].contentHash
  }

  /** The record `record` builds for a body on top of a head. */
  function Sealed(crypto: Crypto, body: Body, prevHash: string): AuditRecord {
    var c := crypto.hash(body);
    AuditRecord(body, c, prevHash, crypto.mac(Message(c, prevHash)))
  }

  /** Append-only in-memory backend. */
  class InMemoryAuditBackend {
    var records: seq<AuditRecord>

    constructor ()
      ensures records == []
    {
      records := [];
    }

    method Append(record: AuditRecord)
      modifies this
      ensures records == old(records) + [record]
    {
      records := records + [record];
    }

    method All() returns (all: seq<AuditRecord>)
      ensures all == records
    {
      all := records;
    }

    method Latest() returns (h: string)
      ensures h == LatestHash(records)
    {
      h := if records != [] then records[|records| - 1].contentHash else GENESIS_HASH;
    }
  }

  class AuditWriter {
    const backend: InMemoryAuditBackend
    const aead: Aead
    const crypto: Crypto

    constructor (backend: InMemoryAuditBackend, aead: Aead, crypto: Crypto)
      ensures this.backend == backend && this.aead == aead && this.crypto == crypto
    {
      this.backend, this.aead, this.crypto := backend, aead, crypto;
    }

    /** Without a customer in scope nothing is written; otherwise one sealed record is. */
    method Record(customerId: Option<string>, requestId: string, eventType: string, payload: string,
        nonce: nat, now: int, recordId: string)
      returns (r: Result<AuditRecord, RecordError>)
      modifies backend
      ensures customerId == None ==> r == Failure(MissingTenantScope) && backend.records == old(backend.records)
      ensures customerId.Some? ==>
        var body := Body(recordId, customerId.value, requestId, eventType, now, nonce,
          aead.seal(nonce, payload, customerId.value));
        r == Success(Sealed(crypto, body, LatestHash(old(backend.records))))
        && backend.records == old(backend.records) + [r.value]
    {
      if customerId == None {
        return Failure(MissingTenantScope);
      }
      var ct := aead.seal(nonce, payload, customerId.value);
      var body := Body(recordId, customerId.value, requestId, eventType, now, nonce, ct);
      var contentHash := crypto.hash(body);
      var prevHash := backend.Latest();
      var signature := crypto.mac(Message(contentHash, prevHash));
      var record := AuditRecord(body, contentHash, prevHash, signature);
      backend.Append(record);
      return Success(record);
    }

    /** The first mismatch found walking the log from the genesis value, None when there is none. */
    method VerifyChain() returns (broken: Option<ChainBroken>)
      ensures broken == FirstBreak(crypto, backend.records, GENESIS_HASH)
    {
      var records := backend.All();
      var prev := GENESIS_HASH;
      for i := 0 to |records|
        invariant FirstBreak(crypto, records[i..], prev) == FirstBreak(crypto, records, GENESIS_HASH)
      {
        var rec := records[i];
        assert records[i..][1..] == records[i + 1..];
        if rec.prevHash != prev {
          return Some(PrevHashMismatch(rec.body.recordId, prev, rec.prevHash));
        }
        var recomputed := crypto.hash(rec.body);
        if recomputed != rec.contentHash {
          return Some(ContentHashMismatch(rec.body.recordId));
        }
        if crypto.mac(Message(rec.contentHash, rec.prevHash)) != rec.hmacSignature {
          return Some(SignatureInvalid(rec.body.recordId));
        }
        prev := rec.contentHash;
      }
      return None;
    }
  }

  function FirstBreak(crypto: Crypto, records: seq<AuditRecord>, prev: string): Option<ChainBroken> {
    if records == [] then None
    else
      var rec := records[0];
      if rec.prevHash != prev then Some(PrevHashMismatch(rec.body.recordId, prev, rec.prevHash))
      else if crypto.hash(rec.body) != rec.contentHash then Some(ContentHashMismatch(rec.body.recordId))
      else if crypto.mac(Message(rec.contentHash, rec.prevHash)) != rec.hmacSignature
        then Some(SignatureInvalid(rec.body.recordId))
      else FirstBreak(crypto, records[1..], rec.contentHash)
  }

  /** What `verify_chain` accepts. */
  predicate Verifies(crypto: Crypto, records: seq<AuditRecord>) {
    FirstBreak(crypto, records, GENESIS_HASH) == None
  }

  /** Record i is the seal of its own body on the head of what precedes it. */
  predicate SealedAt(crypto: Crypto, records: seq<AuditRecord>, i: nat)
    requires i < |records|
  {
    records[i] == Sealed(crypto, records[i].body, LatestHash(records[..i]))
  }

  ghost predicate Chained(crypto: Crypto, records: seq<AuditRecord>) {
    forall i :: 0 <= i < |records| ==> SealedAt(crypto, records, i)
  }

  lemma {:induction false} FirstBreakFrom(crypto: Crypto, records: seq<AuditRecord>, k: nat)
    requires k <= |records|
    ensures FirstBreak(crypto, records[k..], LatestHash(records[..k])) == None
       <==> forall i :: k <= i < |records| ==> SealedAt(crypto, records, i)
    decreases |records| - k
  {
    if k == |records| {
    } else {
      assert records[k..][1..] == records[k + 1..];
      assert records[..k + 1] == records[..k] + [records[k]];
      FirstBreakFrom(crypto, records, k + 1);
      var rec := records[k];
      assert SealedAt(crypto, records, k) <==>
        rec.prevHash == LatestHash(records[..k]) && crypto.hash(rec.body) == rec.contentHash
        && crypto.mac(Message(rec.contentHash, rec.prevHash)) == rec.hmacSignature;
      assert LatestHash(records[..k + 1]) == rec.contentHash;
    }
  }

  /** A log verifies exactly when every record is the seal of its body on the record before it. */
  lemma VerifiesIsChained(crypto: Crypto, records: seq<AuditRecord>)
    ensures Verifies(crypto, records) <==> Chained(crypto, records)
  {
    FirstBreakFrom(crypto, records, 0);
    assert records[0..] == records && records[..0] == [];
  }

  /** Everything before record k is in order, and record k is not. */
  ghost predicate FirstBad(crypto: Crypto, records: seq<AuditRecord>, k: int) {
    0 <= k < |records| && Chained(crypto, records[..k]) && !SealedAt(crypto, records, k)
  }

  lemma {:induction false} BreakFrom(crypto: Crypto, records: seq<AuditRecord>, j: nat, k: nat)
    requires j <= k < |records| && !SealedAt(crypto, records, k)
    requires forall i :: j <= i < k ==> SealedAt(crypto, records, i)
    ensures FirstBreak(crypto, records[j..], LatestHash(records[..j])) == Some(KindOf(crypto, records, k))
    decreases k - j
  {
    assert records[j..][1..] == records[j + 1..] && records[j..][0] == records[j];
    if j == k {
    } else {
      assert SealedAt(crypto, records, j);
      assert records[..j + 1] == records[..j] + [records[j]];
      BreakFrom(crypto, records, j + 1, k);
    }
  }

  /** What is wrong with record k, the link asked first, then the hash, and the signature last. */
  function KindOf(crypto: Crypto, records: seq<AuditRecord>, k: nat): ChainBroken
    requires k < |records|
  {
    var rec, head := records[k], LatestHash(records[..k]);
    if rec.prevHash != head then PrevHashMismatch(rec.body.recordId, head, rec.prevHash)
    else if rec.contentHash != crypto.hash(rec.body) then ContentHashMismatch(rec.body.recordId)
    else SignatureInvalid(rec.body.recordId)
  }

  lemma FirstBadReported(crypto: Crypto, records: seq<AuditRecord>, k: nat)
    requires FirstBad(crypto, records, k)
    ensures FirstBreak(crypto, records, GENESIS_HASH) == Some(KindOf(crypto, records, k))
  {
    assert records[0..] == records && records[..0] == [];
    forall i | 0 <= i < k ensures SealedAt(crypto, records, i) {
      assert SealedAt(crypto, records[..k], i) && records[..k][..i] == records[..i];
    }
    BreakFrom(crypto, records, 0, k);
  }

  lemma {:induction false} SomeFirstBad(crypto: Crypto, records: seq<AuditRecord>) returns (k: nat)
    requires !Chained(crypto, records)
    ensures FirstBad(crypto, records, k)
  {
    var n := |records| - 1;
    if Chained(crypto, records[..n]) {
      k := n;
      forall i | 0 <= i < n ensures SealedAt(crypto, records, i) {
        assert SealedAt(crypto, records[..n], i) && records[..n][..i] == records[..i];
      }
    } else {
      k := SomeFirstBad(crypto, records[..n]);
      assert records[..n][..k] == records[..k];
    }
  }

  /** What verification reports, from the first bad record's own fields: a wrong link with what was expected and what
      was found; with the right link a wrong hash; with both right a wrong signature; each under that record's id. */
  lemma ReportedExactly(crypto: Crypto, records: seq<AuditRecord>, id: string, expected: string, got: string)
    ensures var broken := FirstBreak(crypto, records, GENESIS_HASH);
      && (broken == Some(PrevHashMismatch(id, expected, got)) <==>
            exists k ::
              && FirstBad(crypto, records, k) && records[k].body.recordId == id
              && records[k].prevHash == got && LatestHash(records[..k]) == expected && got != expected)
      && (broken == Some(ContentHashMismatch(id)) <==>
            exists k ::
              && FirstBad(crypto, records, k) && records[k].body.recordId == id
              && records[k].prevHash == LatestHash(records[..k])
              && records[k].contentHash != crypto.hash(records[k].body))
      && (broken == Some(SignatureInvalid(id)) <==>
            exists k ::
              && FirstBad(crypto, records, k) && records[k].body.recordId == id
              && records[k].prevHash == LatestHash(records[..k])
              && records[k].contentHash == crypto.hash(records[k].body))
  {
    VerifiesIsChained(crypto, records);
    forall k | FirstBad(crypto, records, k)
      ensures FirstBreak(crypto, records, GENESIS_HASH) == Some(KindOf(crypto, records, k))
    {
      FirstBadReported(crypto, records, k);
    }
    if Chained(crypto, records) {
      forall k ensures !FirstBad(crypto, records, k) {
      }
    } else {
      var k := SomeFirstBad(crypto, records);
    }
  }

  ghost predicate DistinctIds(records: seq<AuditRecord>) {
    forall i, j :: 0 <= i < j < |records| ==> records[i].body.recordId != records[j].body.recordId
  }

  /** What a writer alone with its backend produces. */
  ghost predicate Honest(crypto: Crypto, records: seq<AuditRecord>) {
    Chained(crypto, records) && DistinctIds(records)
  }

  /** Recording with a fresh id keeps the log honest. */
  lemma RecordKeepsHonest(crypto: Crypto, records: seq<AuditRecord>, body: Body)
    requires Honest(crypto, records) && forall i :: 0 <= i < |records| ==> records[i].body.recordId != body.recordId
    ensures Honest(crypto, records + [Sealed(crypto, body, LatestHash(records))])
  {
    ChainedMore(crypto, records, body);
  }

  // ----- Runs of calls -----

  /** A call of `record`, and whether the backend refused the record after it was signed. */
  datatype Call = Call(body: Body, refused: bool)

  /** All that was signed: the records of the log, and those whose insert was refused. */
  datatype Trail = Trail(log: seq<AuditRecord>, refused: seq<AuditRecord>)
  {
    function Signed(): seq<AuditRecord> { log + refused }

    function Part(wasRefused: bool): seq<AuditRecord> { if wasRefused then refused else log }
  }

  /** A call seals its body on the head; the record joins the log unless the backend refuses it. */
  function AfterCall(crypto: Crypto, trail: Trail, call: Call): Trail {
    var rec := Sealed(crypto, call.body, LatestHash(trail.log));
    if call.refused then trail.(refused := trail.refused + [rec]) else trail.(log := trail.log + [rec])
  }

  /** The trail after the calls, one after another. */
  function RecordCalls(crypto: Crypto, start: Trail, calls: seq<Call>): Trail {
    if calls == [] then start
    else AfterCall(crypto, RecordCalls(crypto, start, calls[..|calls| - 1]), calls[|calls| - 1])
  }

  function Bodies(records: seq<AuditRecord>): seq<Body> {
    seq(|records|, i requires 0 <= i < |records| => records[i].body)
  }

  /** The bodies of the calls that were refused, or of those that were not, in order. */
  function BodiesOf(calls: seq<Call>, refused: bool): seq<Body> {
    if calls == [] then []
    else
      var n := |calls| - 1;
      BodiesOf(calls[..n], refused) + if calls[n].refused == refused then [calls[n].body] else []
  }

  /** rec is the seal of its own body on the head the log had at length n. */
  predicate SealedOn(crypto: Crypto, log: seq<AuditRecord>, n: int, rec: AuditRecord) {
    0 <= n <= |log| && rec == Sealed(crypto, rec.body, LatestHash(log[..n]))
  }

  ghost predicate SealedSomewhere(crypto: Crypto, log: seq<AuditRecord>, rec: AuditRecord) {
    exists n :: SealedOn(crypto, log, n, rec)
  }

  ghost predicate AllDistinct(trail: Trail) {
    && DistinctIds(trail.log) && DistinctIds(trail.refused)
    && forall a, b :: a in trail.log && b in trail.refused ==> a.body.recordId != b.body.recordId
  }

  /** What a writer alone with its backend leaves behind. */
  ghost predicate Trailed(crypto: Crypto, trail: Trail) {
    && Chained(crypto, trail.log) && AllDistinct(trail)
    && forall rec :: rec in trail.refused ==> SealedSomewhere(crypto, trail.log, rec)
  }

  /** The ids of the calls are new and all different. */
  ghost predicate FreshCalls(start: Trail, calls: seq<Call>) {
    && (forall i, j :: 0 <= i < j < |calls| ==> calls[i].body.recordId != calls[j].body.recordId)
    && (forall i, r :: 0 <= i < |calls| && r in start.Signed() ==> calls[i].body.recordId != r.body.recordId)
  }

  lemma {:induction false} StillFresh(crypto: Crypto, start: Trail, calls: seq<Call>, n: nat, rec: AuditRecord)
    requires n < |calls| && FreshCalls(start, calls) && rec in RecordCalls(crypto, start, calls[..n]).Signed()
    ensures rec.body.recordId != calls[n].body.recordId
    decreases n
  {
    if n == 0 {
    } else {
      assert calls[..n][..n - 1] == calls[..n - 1];
      if rec in RecordCalls(crypto, start, calls[..n - 1]).Signed() {
        var without := calls[..n - 1] + calls[n..];
        assert without[..n - 1] == calls[..n - 1] && without[n - 1] == calls[n];
        StillFresh(crypto, start, without, n - 1, rec);
      }
    }
  }

  lemma {:induction false} CallsKeepTrail(crypto: Crypto, start: Trail, calls: seq<Call>)
    requires Trailed(crypto, start) && FreshCalls(start, calls)
    ensures Trailed(crypto, RecordCalls(crypto, start, calls))
  {
    if calls == [] {
    } else {
      var n := |calls| - 1;
      var before := RecordCalls(crypto, start, calls[..n]);
      CallsKeepTrail(crypto, start, calls[..n]);
      NextFresh(crypto, start, calls);
      TrailGrows(crypto, before, calls[n]);
    }
  }

  lemma NextFresh(crypto: Crypto, start: Trail, calls: seq<Call>)
    requires calls != [] && FreshCalls(start, calls)
    ensures var n := |calls| - 1;
      forall rec :: rec in RecordCalls(crypto, start, calls[..n]).Signed() ==>
        rec.body.recordId != calls[n].body.recordId
  {
    var n := |calls| - 1;
    forall rec | rec in RecordCalls(crypto, start, calls[..n]).Signed()
      ensures rec.body.recordId != calls[n].body.recordId
    {
      StillFresh(crypto, start, calls, n, rec);
    }
  }

  lemma BodiesMore(records: seq<AuditRecord>, rec: AuditRecord)
    ensures Bodies(records + [rec]) == Bodies(records) + [rec.body]
  {
  }

  lemma {:induction false} CallsKeepBodies(crypto: Crypto, start: Trail, calls: seq<Call>, refused: bool)
    ensures var trail := RecordCalls(crypto, start, calls);
      Bodies(trail.Part(refused)) == Bodies(start.Part(refused)) + BodiesOf(calls, refused)
  {
    if calls == [] {
    } else {
      var n := |calls| - 1;
      var before := RecordCalls(crypto, start, calls[..n]);
      CallsKeepBodies(crypto, start, calls[..n], refused);
      BodiesMore(before.Part(refused), Sealed(crypto, calls[n].body, LatestHash(before.log)));
      ConcatAssociative(Bodies(start.Part(refused)), BodiesOf(calls[..n], refused), [calls[n].body]);
    }
  }

  /** Every run of whole `record` calls with fresh ids, some of them refused, leaves a log that verifies and
      holds the bodies of the calls that went through, in order; the refused ones were signed all the same. */
  lemma AtomicRunsVerify(crypto: Crypto, start: Trail, calls: seq<Call>)
    requires Trailed(crypto, start) && FreshCalls(start, calls)
    ensures var trail := RecordCalls(crypto, start, calls);
      && Trailed(crypto, trail) && Verifies(crypto, trail.log)
      && Bodies(trail.log) == Bodies(start.log) + BodiesOf(calls, false)
      && Bodies(trail.refused) == Bodies(start.refused) + BodiesOf(calls, true)
  {
    CallsKeepTrail(crypto, start, calls);
    CallsKeepBodies(crypto, start, calls, false);
    CallsKeepBodies(crypto, start, calls, true);
    VerifiesIsChained(crypto, RecordCalls(crypto, start, calls).log);
  }

  /** One more call with a fresh id. */
  lemma TrailGrows(crypto: Crypto, trail: Trail, call: Call)
    requires Trailed(crypto, trail)
    requires forall rec :: rec in trail.Signed() ==> rec.body.recordId != call.body.recordId
    ensures Trailed(crypto, AfterCall(crypto, trail, call))
  {
    var next := AfterCall(crypto, trail, call);
    var rec := Sealed(crypto, call.body, LatestHash(trail.log));
    assert trail.log[..|trail.log|] == trail.log;
    assert SealedOn(crypto, trail.log, |trail.log|, rec);
    DistinctMore(trail, rec);
    if !call.refused {
      ChainedMore(crypto, trail.log, call.body);
    }
    forall r | r in next.refused ensures SealedSomewhere(crypto, next.log, r) {
      assert r in trail.refused || r == rec;
      SealedOnLonger(crypto, trail.log, next.log, r);
    }
  }

  lemma SealedOnLonger(crypto: Crypto, log: seq<AuditRecord>, longer: seq<AuditRecord>, rec: AuditRecord)
    requires log <= longer && SealedSomewhere(crypto, log, rec)
    ensures SealedSomewhere(crypto, longer, rec)
  {
    var n :| SealedOn(crypto, log, n, rec);
    assert longer[..n] == log[..n];
    assert SealedOn(crypto, longer, n, rec);
  }

  lemma ChainedMore(crypto: Crypto, log: seq<AuditRecord>, body: Body)
    requires Chained(crypto, log)
    ensures Chained(crypto, log + [Sealed(crypto, body, LatestHash(log))])
  {
    var next := log + [Sealed(crypto, body, LatestHash(log))];
    forall i | 0 <= i < |next| ensures SealedAt(crypto, next, i) {
      assert next[..i] == log[..i];
      if i < |log| {
        assert SealedAt(crypto, log, i);
      } else {
        assert log[..i] == log;
      }
    }
  }

  lemma DistinctMore(trail: Trail, rec: AuditRecord)
    requires AllDistinct(trail)
    requires forall r :: r in trail.Signed() ==> r.body.recordId != rec.body.recordId
    ensures AllDistinct(trail.(log := trail.log + [rec]))
    ensures AllDistinct(trail.(refused := trail.refused + [rec]))
  {
    assert forall r :: r in trail.log || r in trail.refused ==> r in trail.Signed();
  }

  // ----- Tamper evidence -----

  /** No one but the writer can sign: every valid signature in `records` is on a message `record` signed. */
  ghost predicate Unforged(crypto: Crypto, records: seq<AuditRecord>, signed: seq<AuditRecord>) {
    forall rec :: rec in records && rec.hmacSignature == crypto.mac(Message(rec.contentHash, rec.prevHash)) ==>
      MessageOf(signed, Message(rec.contentHash, rec.prevHash))
  }

  ghost predicate MessageOf(signed: seq<AuditRecord>, message: string) {
    exists s :: s in signed && message == Message(s.contentHash, s.prevHash)
  }

  /** In an honest log no two records, and no record and the genesis value, share a content hash. */
  lemma HashesDiffer(crypto: Crypto, log: seq<AuditRecord>, i: nat, j: nat)
    requires crypto.SoundOn(log) && Honest(crypto, log) && i <= |log| && j <= |log|
    requires LatestHash(log[..i]) == LatestHash(log[..j])
    ensures i == j
  {
    if i > 0 { HeadOf(crypto, log, i); }
    if j > 0 { HeadOf(crypto, log, j); }
  }

  lemma HeadOf(crypto: Crypto, log: seq<AuditRecord>, i: nat)
    requires Chained(crypto, log) && 0 < i <= |log|
    ensures LatestHash(log[..i]) == crypto.hash(log[i - 1].body) && log[i - 1] in log
  {
    assert SealedAt(crypto, log, i - 1) && log[..i][i - 1] == log[i - 1];
  }

  /** All the theorems below are about: a trail, and a list whose valid signatures come from it. */
  ghost predicate Presented(crypto: Crypto, trail: Trail, records: seq<AuditRecord>) {
    && Trailed(crypto, trail) && Unforged(crypto, records, trail.Signed())
    && crypto.SoundOn(trail.Signed() + records)
  }

  lemma PresentedPart(crypto: Crypto, trail: Trail, records: seq<AuditRecord>, part: seq<AuditRecord>)
    requires Presented(crypto, trail, records) && forall r :: r in part ==> r in records
    ensures Presented(crypto, trail, part)
  {
    assert forall r :: r in trail.Signed() + part ==> r in trail.Signed() + records;
  }

  lemma TrailedLog(crypto: Crypto, trail: Trail, records: seq<AuditRecord>)
    requires Presented(crypto, trail, records)
    ensures Honest(crypto, trail.log) && crypto.SoundOn(trail.log)
  {
    assert forall r :: r in trail.log ==> r in trail.Signed() + records;
  }

  /** Whoever is sealed and validly signed was signed by `record`. */
  lemma SealedIsSigned(crypto: Crypto, trail: Trail, rec: AuditRecord, prev: string)
    requires Presented(crypto, trail, [rec]) && rec == Sealed(crypto, rec.body, prev)
    ensures rec in trail.Signed()
  {
    var all := trail.Signed() + [rec];
    assert rec in [rec] && rec in all;
    var s :| s in trail.Signed() && Message(rec.contentHash, rec.prevHash) == Message(s.contentHash, s.prevHash);
    assert s in all;
    SignedIsSealed(crypto, trail, s);
    JoinInjective('|', rec.contentHash, rec.prevHash, s.contentHash, s.prevHash);
  }

  lemma SignedIsSealed(crypto: Crypto, trail: Trail, s: AuditRecord)
    requires Trailed(crypto, trail) && s in trail.Signed()
    ensures SealedSomewhere(crypto, trail.log, s)
  {
    if s in trail.log {
      var i :| 0 <= i < |trail.log| && trail.log[i] == s;
      assert SealedAt(crypto, trail.log, i);
      assert SealedOn(crypto, trail.log, i, s);
    } else {
      assert s in trail.refused;
    }
  }

  /** `records` is the log up to some length with one refused record, sealed on the head it had there. */
  ghost predicate EndsRefused(crypto: Crypto, trail: Trail, records: seq<AuditRecord>) {
    && records != [] && records[|records| - 1] in trail.refused && records[..|records| - 1] <= trail.log
    && SealedOn(crypto, trail.log, |records| - 1, records[|records| - 1])
  }

  /** What follows a prefix of the log is its next record or a refused one. */
  lemma NextIsTrailed(crypto: Crypto, trail: Trail, rec: AuditRecord, i: nat)
    requires Presented(crypto, trail, [rec]) && SealedOn(crypto, trail.log, i, rec)
    ensures rec in trail.refused || (i < |trail.log| && rec == trail.log[i])
  {
    SealedIsSigned(crypto, trail, rec, LatestHash(trail.log[..i]));
    if rec in trail.log {
      var j :| 0 <= j < |trail.log| && trail.log[j] == rec;
      assert SealedAt(crypto, trail.log, j);
      TrailedLog(crypto, trail, [rec]);
      HashesDiffer(crypto, trail.log, i, j);
    }
  }

  /** The head of the log was never a refused record. */
  lemma RefusedIsNoHead(crypto: Crypto, trail: Trail, last: AuditRecord, n: nat)
    requires Trailed(crypto, trail) && crypto.SoundOn(trail.Signed())
    requires last in trail.refused && n <= |trail.log|
    ensures LatestHash(trail.log[..n]) != last.contentHash
  {
    var m :| SealedOn(crypto, trail.log, m, last);
    assert last in trail.Signed();
    if n > 0 {
      HeadOf(crypto, trail.log, n);
      assert trail.log[n - 1] in trail.Signed();
    }
  }

  /** Nothing follows a refused record. */
  lemma NothingOnRefused(crypto: Crypto, trail: Trail, last: AuditRecord, rec: AuditRecord)
    requires Presented(crypto, trail, [rec]) && last in trail.refused
    ensures rec != Sealed(crypto, rec.body, last.contentHash)
  {
    assert forall r :: r in trail.Signed() ==> r in trail.Signed() + [rec];
    if rec == Sealed(crypto, rec.body, last.contentHash) {
      SealedIsSigned(crypto, trail, rec, last.contentHash);
      SignedIsSealed(crypto, trail, rec);
      var n :| SealedOn(crypto, trail.log, n, rec);
      RefusedIsNoHead(crypto, trail, last, n);
    }
  }

  lemma ChainedFront(crypto: Crypto, records: seq<AuditRecord>, n: nat)
    requires Chained(crypto, records) && n <= |records|
    ensures Chained(crypto, records[..n])
  {
    forall i | 0 <= i < n ensures SealedAt(crypto, records[..n], i) {
      assert SealedAt(crypto, records, i) && records[..n][..i] == records[..i];
    }
  }

  /** What a list may be: a prefix of the log, or one with a refused record on top. */
  ghost predicate Acceptable(crypto: Crypto, trail: Trail, records: seq<AuditRecord>) {
    records <= trail.log || EndsRefused(crypto, trail, records)
  }

  lemma PrefixAndOne(crypto: Crypto, trail: Trail, front: seq<AuditRecord>, rec: AuditRecord)
    requires front <= trail.log && SealedOn(crypto, trail.log, |front|, rec)
    requires rec in trail.refused || (|front| < |trail.log| && rec == trail.log[|front|])
    ensures Acceptable(crypto, trail, front + [rec])
  {
    var records := front + [rec];
    assert records[..|records| - 1] == front && records[|records| - 1] == rec;
  }

  lemma OneMoreAcceptable(crypto: Crypto, trail: Trail, front: seq<AuditRecord>, rec: AuditRecord)
    requires Presented(crypto, trail, [rec]) && Acceptable(crypto, trail, front)
    requires rec == Sealed(crypto, rec.body, LatestHash(front))
    ensures Acceptable(crypto, trail, front + [rec])
  {
    if front <= trail.log {
      assert front == trail.log[..|front|];
      NextIsTrailed(crypto, trail, rec, |front|);
      PrefixAndOne(crypto, trail, front, rec);
    } else {
      NothingOnRefused(crypto, trail, front[|front| - 1], rec);
    }
  }

  lemma LastPresented(crypto: Crypto, trail: Trail, records: seq<AuditRecord>)
    requires Presented(crypto, trail, records) && Chained(crypto, records) && records != []
    ensures var front, rec := records[..|records| - 1], records[|records| - 1];
      && Presented(crypto, trail, front) && Chained(crypto, front) && Presented(crypto, trail, [rec])
      && rec == Sealed(crypto, rec.body, LatestHash(front)) && front + [rec] == records
  {
    var n := |records| - 1;
    ChainedFront(crypto, records, n);
    PresentedPart(crypto, trail, records, records[..n]);
    PresentedPart(crypto, trail, records, [records[n]]);
    assert SealedAt(crypto, records, n);
  }

  lemma {:induction false} VerifiedIsAcceptable(crypto: Crypto, trail: Trail, records: seq<AuditRecord>)
    requires Presented(crypto, trail, records) && Chained(crypto, records)
    ensures Acceptable(crypto, trail, records)
  {
    if records == [] {
    } else {
      var front, rec := records[..|records| - 1], records[|records| - 1];
      LastPresented(crypto, trail, records);
      VerifiedIsAcceptable(crypto, trail, front);
      OneMoreAcceptable(crypto, trail, front, rec);
    }
  }

  lemma EndsRefusedChained(crypto: Crypto, trail: Trail, records: seq<AuditRecord>)
    requires Chained(crypto, trail.log) && EndsRefused(crypto, trail, records)
    ensures Chained(crypto, records)
  {
    var n := |records| - 1;
    PrefixChained(crypto, trail.log, records[..n]);
    assert records[..n] == trail.log[..n] && records == records[..n] + [records[n]];
    ChainedMore(crypto, records[..n], records[n].body);
  }

  /** Tamper evidence, exactly: `verify_chain` accepts the prefixes of the honest log, record for record, and
      such a prefix followed by one record that was signed on its head and then refused; nothing else. */
  lemma AcceptedExactly(crypto: Crypto, trail: Trail, records: seq<AuditRecord>)
    requires Presented(crypto, trail, records)
    ensures Verifies(crypto, records) <==> Acceptable(crypto, trail, records)
  {
    VerifiesIsChained(crypto, records);
    if Chained(crypto, records) {
      VerifiedIsAcceptable(crypto, trail, records);
    } else if records <= trail.log {
      PrefixChained(crypto, trail.log, records);
    } else if EndsRefused(crypto, trail, records) {
      EndsRefusedChained(crypto, trail, records);
    }
  }

  lemma PrefixChained(crypto: Crypto, log: seq<AuditRecord>, records: seq<AuditRecord>)
    requires Chained(crypto, log) && records <= log
    ensures Chained(crypto, records)
  {
    ChainedFront(crypto, log, |records|);
    assert log[..|records|] == records;
  }

  /** When no insert was refused, exactly the prefixes: edits, reorders, insertions and deletions inside fail;
      cutting off the tail does not. */
  lemma AcceptedExactlyPrefixes(crypto: Crypto, log: seq<AuditRecord>, records: seq<AuditRecord>)
    requires Presented(crypto, Trail(log, []), records)
    ensures Verifies(crypto, records) <==> records <= log
  {
    AcceptedExactly(crypto, Trail(log, []), records);
  }

  /** With refusals or without, a list that holds none of the refused records and is as long as the log
      verifies only when it is the log. */
  lemma SameLengthMeansUntouched(crypto: Crypto, trail: Trail, records: seq<AuditRecord>)
    requires Presented(crypto, trail, records) && |records| == |trail.log|
    ensures Verifies(crypto, records) && (forall rec :: rec in records ==> rec !in trail.refused)
      <==> records == trail.log
  {
    AcceptedExactly(crypto, trail, records);
    if records == trail.log {
      forall rec | rec in records ensures rec !in trail.refused {
        assert rec in trail.log;
      }
    }
  }
}
