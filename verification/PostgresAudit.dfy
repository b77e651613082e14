/** The Postgres audit backend: a table that inserts into may fail, and a cached head. */
module PostgresAudit {
  import opened Results
  import opened Audit

  class PostgresAuditBackend {
    /** The audit_log table in insertion order. */
    var table: seq<AuditRecord>
    var cachedLatest: Option<string>

    /** With no other writer on the table, a cached head is the table's head. */
    ghost predicate Valid()
      reads this
    {
      cachedLatest.Some? ==> cachedLatest.value == LatestHash(table)
    }

    /** A backend started on an existing table has nothing cached. */
    constructor (table: seq<AuditRecord>)
      ensures Valid() && this.table == table && cachedLatest == None
    {
      this.table, cachedLatest := table, None;
    }

    /** `insertFails` says whether the database refuses the insert. */
    method Append(record: AuditRecord, insertFails: bool) returns (error: Option<RecordError>)
      requires Valid()
      modifies this
      ensures Valid()
      ensures insertFails ==> error == Some(WriteFailed) && table == old(table) && cachedLatest == old(cachedLatest)
      ensures !insertFails ==>
        error == None && table == old(table) + [record] && cachedLatest == Some(record.contentHash)
    {
      if insertFails {
        return Some(WriteFailed);
      }
      table := table + [record];
      cachedLatest := Some(record.contentHash);
      return None;
    }

    method Latest() returns (h: string)
      requires Valid()
      modifies this`cachedLatest
      ensures Valid() && h == LatestHash(table) && cachedLatest == Some(h)
    {
      if cachedLatest.Some? {
        return cachedLatest.value;
      }
      h := if table != [] then table[|table| - 1].contentHash else GENESIS_HASH;
      cachedLatest := Some(h);
    }

    /** One `record` call through this backend: sealed on the true head, or refused without a trace. */
    method Record(crypto: Crypto, body: Body, insertFails: bool) returns (r: Result<AuditRecord, RecordError>)
      requires Valid()
      modifies this
      ensures Valid()
      ensures insertFails ==> r == Failure(WriteFailed) && table == old(table)
      ensures !insertFails ==>
        r == Success(Sealed(crypto, body, LatestHash(old(table)))) && table == old(table) + [r.value]
    {
      var contentHash := crypto.hash(body);
      var prevHash := Latest();
      var record := AuditRecord(body, contentHash, prevHash, crypto.mac(Message(contentHash, prevHash)));
      var error := Append(record, insertFails);
      if error.Some? {
        return Failure(error.value);
      }
      return Success(record);
    }
  }

  /** A run of record calls on one backend, some of them refused: the table is the log of that run. */
  method RecordRun(backend: PostgresAuditBackend, crypto: Crypto, calls: seq<Call>, ghost start: Trail)
    requires backend.Valid() && backend.table == start.log && Trailed(crypto, start) && FreshCalls(start, calls)
    modifies backend
    ensures backend.Valid() && Verifies(crypto, backend.table)
    ensures backend.table == RecordCalls(crypto, start, calls).log
    ensures Bodies(backend.table) == Bodies(old(backend.table)) + BodiesOf(calls, false)
  {
    for i := 0 to |calls|
      invariant backend.Valid() && backend.table == RecordCalls(crypto, start, calls[..i]).log
    {
      var r := backend.Record(crypto, calls[i].body, calls[i].refused);
      assert calls[..i + 1][..i] == calls[..i];
    }
    assert calls[..|calls|] == calls;
    AtomicRunsVerify(crypto, start, calls);
  }
}
