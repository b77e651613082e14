/** One request's encrypted map from synthetic values back to originals. */
module SessionMap {
  import opened Results
  import opened Text

  /** Plaintext form of one mapping. */
  datatype Entry = Entry(original: string, synthetic: string, entityType: string)

  datatype Slot = Slot(nonce: nat, ciphertext: string)

  datatype SessionError = SessionPurged(requestId: string) | DecryptionFailed

  /** Authenticated encryption under one key: (nonce, payload, associated data). */
  datatype Aead = Aead(seal: (nat, string, string) -> string, open: (nat, string, string) -> Option<string>)
  {
    /** What was sealed opens to the same payload under the same associated data. */
    ghost predicate Correct() {
      forall n, p, a :: open(n, seal(n, p, a), a) == Some(p)
    }

    /** What was sealed opens under no other associated data. */
    ghost predicate BindsData() {
      forall n, p, a, b :: a != b ==> open(n, seal(n, p, a), b) == None
    }
  }

  const SEPARATOR: char := '\U{1F}'

  /** Python's `s.split(sep, 1)`, None when there is no separator to split at. */
  function SplitOnce(s: string, sep: char): Option<(string, string)> {
    if s == "" then None
    else if s[0] == sep then Some(("", s[1..]))
    else match SplitOnce(s[1..], sep)
      case None => None
      case Some(pair) => Some(([s[0]] + pair.0, pair.1))
  }

  function Payload(entityType: string, original: string): string {
    entityType + [SEPARATOR] + original
  }

  /** The payload decodes to what went in, whatever the original contains. */
  lemma {:induction false} PayloadRoundTrip(entityType: string, original: string)
    requires SEPARATOR !in entityType
    ensures SplitOnce(Payload(entityType, original), SEPARATOR) == Some((entityType, original))
  {
    if entityType != "" {
      PayloadRoundTrip(entityType[1..], original);
      assert entityType[0] in entityType && entityType == [entityType[0]] + entityType[1..];
      assert Payload(entityType, original)[1..] == Payload(entityType[1..], original);
    } else {
      assert Payload("", original)[1..] == original;
    }
  }

  function AssociatedData(customerId: string, requestId: string): string {
    customerId + "|" + requestId
  }

  /** Two scopes bind to the same data exactly when they are the same scope, or the separator inside one
      customer id splits differently in the other. */
  lemma SameAssociatedData(c: string, r: string, d: string, q: string)
    ensures AssociatedData(c, r) == AssociatedData(d, q)
       <==> (c == d && r == q) || Shifted(c, r, d, q) || Shifted(d, q, c, r)
  {
    var x, y := AssociatedData(c, r), AssociatedData(d, q);
    assert x[..|c|] == c && x[|c|] == '|' && x[|c| + 1..] == r;
    assert y[..|d|] == d && y[|d|] == '|' && y[|d| + 1..] == q;
    if x == y && |c| < |d| {
      ShiftedData(c, r, d, q);
    } else if x == y && |d| < |c| {
      ShiftedData(d, q, c, r);
    }
    if Shifted(c, r, d, q) {
      ShiftedSame(c, r, d, q);
    } else if Shifted(d, q, c, r) {
      ShiftedSame(d, q, c, r);
    }
  }

  /** d is c with something behind a separator that r starts with in turn. */
  ghost predicate Shifted(c: string, r: string, d: string, q: string) {
    |c| < |d| && d[..|c|] == c && d[|c|] == '|' && r == d[|c| + 1..] + "|" + q
  }

  /** Shifting takes a separator in the longer customer id and one in the other scope's request id. */
  lemma ShiftedSeparators(c: string, r: string, d: string, q: string)
    ensures Shifted(c, r, d, q) ==> '|' in d && '|' in r
  {
    if Shifted(c, r, d, q) {
      assert r[|d| - |c| - 1] == '|';
    }
  }

  lemma ShiftedSame(c: string, r: string, d: string, q: string)
    requires Shifted(c, r, d, q)
    ensures AssociatedData(c, r) == AssociatedData(d, q)
  {
    assert d == c + "|" + d[|c| + 1..];
  }

  lemma ShiftedData(c: string, r: string, d: string, q: string)
    requires AssociatedData(c, r) == AssociatedData(d, q) && |c| < |d|
    ensures Shifted(c, r, d, q)
  {
    var x := AssociatedData(d, q);
    assert x[..|d|] == d && x[|c|] == '|' && x[|c| + 1..] == r;
    assert d[..|c|] == x[..|c|] == c;
    assert x[|c| + 1..] == d[|c| + 1..] + "|" + q;
  }

  /** A slot opens under another scope whose customer id is as free of separators as its own if and only if
      customer and request are both the same. */
  lemma SlotBoundToScope(
      aead: Aead, nonce: nat, payload: string, customerId: string, requestId: string, customer2: string,
      request2: string)
    requires aead.Correct() && aead.BindsData() && '|' !in customerId && '|' !in customer2
    ensures var ct := aead.seal(nonce, payload, AssociatedData(customerId, requestId));
      aead.open(nonce, ct, AssociatedData(customer2, request2)).Some?
      <==> customerId == customer2 && requestId == request2
  {
    if AssociatedData(customerId, requestId) == AssociatedData(customer2, request2) {
      JoinInjective('|', customerId, requestId, customer2, request2);
    }
  }

  /** With no separator in either request id, as in the gateway's own, it does so whatever the customer ids are. */
  lemma SlotBoundByRequestIds(
      aead: Aead, nonce: nat, payload: string, customerId: string, requestId: string, customer2: string,
      request2: string)
    requires aead.Correct() && aead.BindsData() && '|' !in requestId && '|' !in request2
    ensures var ct := aead.seal(nonce, payload, AssociatedData(customerId, requestId));
      aead.open(nonce, ct, AssociatedData(customer2, request2)).Some?
      <==> customerId == customer2 && requestId == request2
  {
    SameAssociatedData(customerId, requestId, customer2, request2);
    ShiftedSeparators(customerId, requestId, customer2, request2);
    ShiftedSeparators(customer2, request2, customerId, requestId);
  }

  /** With a separator in a customer id and in a request id the binding can fail: two customers, one scope. */
  lemma SeparatorJoinsScopes(aead: Aead, nonce: nat, payload: string)
    requires aead.Correct()
    ensures aead.open(nonce, aead.seal(nonce, payload, AssociatedData("a|b", "c")), AssociatedData("a", "b|c")).Some?
  {
    assert AssociatedData("a|b", "c") == "a|b|c" == AssociatedData("a", "b|c");
  }

  /** Between two requests of one customer it never fails, whatever the ids contain. */
  lemma SlotBoundToRequest(
      aead: Aead, nonce: nat, payload: string, customerId: string, requestId: string, otherRequest: string)
    requires aead.Correct() && aead.BindsData()
    ensures var ct := aead.seal(nonce, payload, AssociatedData(customerId, requestId));
      aead.open(nonce, ct, AssociatedData(customerId, otherRequest)).Some? <==> requestId == otherRequest
  {
    SameAssociatedData(customerId, requestId, customerId, otherRequest);
  }

  class EncryptedSessionMap {
    const aead: Aead
    const customerId: string
    const requestId: string
    var lastAccess: int
    var encrypted: map<string, Slot>
    var purged: bool

    constructor (aead: Aead, customerId: string, requestId: string, now: int)
      requires aead.Correct()
      ensures Valid() && !purged && encrypted == map[] && lastAccess == now
      ensures this.aead == aead && this.customerId == customerId && this.requestId == requestId
    {
      this.aead, this.customerId, this.requestId := aead, customerId, requestId;
      lastAccess, encrypted, purged := now, map[], false;
    }

    function Opened(slot: Slot): Option<(string, string)> {
      match aead.open(slot.nonce, slot.ciphertext, AssociatedData(customerId, requestId))
      case None => None
      case Some(payload) => SplitOnce(payload, SEPARATOR)
    }

    ghost predicate Valid()
      reads this
    {
      && aead.Correct()
      && (forall s :: s in encrypted ==> Opened(encrypted[s]).Some?)
      && (purged ==> encrypted == map[])
    }

    /** What the slots decrypt to. */
    ghost function Plain(): (m: map<string, Entry>)
      requires Valid()
      reads this
      ensures m.Keys == encrypted.Keys
    {
      map s | s in encrypted :: Entry(Opened(encrypted[s]).value.1, s, Opened(encrypted[s]).value.0)
    }

    method Add(entry: Entry, nonce: nat, now: int) returns (error: Option<SessionError>)
      requires Valid() && SEPARATOR !in entry.entityType
      modifies this
      ensures Valid() && purged == old(purged)
      ensures error == if old(purged) then Some(SessionPurged(requestId)) else None
      ensures old(purged) ==> Plain() == old(Plain()) && lastAccess == old(lastAccess)
      ensures !old(purged) ==> Plain() == old(Plain())[entry.synthetic := entry] && lastAccess == now
    {
      if purged {
        return Some(SessionPurged(requestId));
      }
      var ct := aead.seal(nonce, Payload(entry.entityType, entry.original), AssociatedData(customerId, requestId));
      PayloadRoundTrip(entry.entityType, entry.original);
      encrypted := encrypted[entry.synthetic := Slot(nonce, ct)];
      lastAccess := now;
      return None;
    }

    method Reverse(synthetic: string, now: int) returns (r: Result<Option<Entry>, SessionError>)
      requires Valid()
      modifies this`lastAccess
      ensures Valid()
      ensures purged ==> r == Failure(SessionPurged(requestId)) && lastAccess == old(lastAccess)
      ensures !purged ==> lastAccess == now
      ensures !purged ==> r == Success(if synthetic in Plain() then Some(Plain()[synthetic]) else None)
    {
      if purged {
        return Failure(SessionPurged(requestId));
      }
      lastAccess := now;
      if synthetic !in encrypted {
        return Success(None);
      }
      var slot := encrypted[synthetic];
      var plain := aead.open(slot.nonce, slot.ciphertext, AssociatedData(customerId, requestId));
      if plain == None {
        return Failure(DecryptionFailed);
      }
      var parts := SplitOnce(plain.value, SEPARATOR);
      return Success(Some(Entry(parts.value.1, synthetic, parts.value.0)));
    }

    predicate IsIdle(now: int, timeout: int)
      reads this
    {
      purged || now - lastAccess >= timeout
    }

    method Purge()
      requires Valid()
      modifies this
      ensures Valid() && purged && encrypted == map[] && lastAccess == old(lastAccess)
    {
      encrypted := map[];
      purged := true;
    }
  }
}
