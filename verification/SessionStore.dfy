/** The process-wide registry of live session maps. */
module SessionStore {
  import opened Results
  import opened SessionMap
  import opened SessionLifecycle

  class SessionMapStore {
    const aead: Aead
    const idleTimeout: int
    var maps: map<string, EncryptedSessionMap>

    /** Every map this store ever created, where the registered ones are among them, and the maps popped by
        a `close` that has not purged yet. */
    ghost var created: seq<EncryptedSessionMap>
    ghost var handles: map<string, nat>
    ghost var closing: set<nat>

    ghost predicate Valid()
      reads this, created
    {
      && aead.Correct()
      && (forall i, j :: 0 <= i < j < |created| ==> created[i] != created[j])
      && (forall i :: 0 <= i < |created| ==> created[i].Valid())
      && handles.Keys == maps.Keys
      && (forall rid :: rid in maps ==> handles[rid] < |created| && created[handles[rid]] == maps[rid])
    }

    ghost function View(m: EncryptedSessionMap): Session
      reads m
    {
      Session(m.requestId, m.lastAccess, m.purged)
    }

    ghost function Views(): seq<Session>
      reads this, created
    {
      seq(|created|, i requires 0 <= i < |created| reads this, created => View(created[i]))
    }

    /** The store as a state of the lifecycle. */
    ghost function State(): World
      reads this, created
    {
      World(Views(), handles, closing)
    }

    constructor (aead: Aead, idleTimeout: int)
      requires aead.Correct()
      ensures Valid() && State() == INITIAL && this.aead == aead && this.idleTimeout == idleTimeout
    {
      this.aead, this.idleTimeout := aead, idleTimeout;
      maps, created, handles, closing := map[], [], map[], {};
    }

    method Open(requestId: string, customerId: string, now: int) returns (sm: EncryptedSessionMap)
      requires Valid()
      modifies this
      ensures Valid() && fresh(sm) && sm.Valid() && !sm.purged && sm.requestId == requestId && sm.encrypted == map[]
      ensures created == old(created) + [sm]
      ensures State() == Next(old(State()), SessionLifecycle.Open(requestId, now), idleTimeout)
    {
      sm := new EncryptedSessionMap(aead, customerId, requestId, now);
      maps := maps[requestId := sm];
      handles := handles[requestId := |created|];
      created := created + [sm];
      assert Views() == old(Views()) + [Session(requestId, now, false)];
    }

    /** The first half of `close`, under the store's lock. */
    method PopForClose(requestId: string) returns (sm: Option<EncryptedSessionMap>)
      requires Valid()
      modifies this`maps, this`handles, this`closing
      ensures Valid() && created == old(created)
      ensures sm == if requestId in old(maps) then Some(old(maps)[requestId]) else None
      ensures State() == Next(old(State()), Pop(requestId), idleTimeout)
    {
      if requestId !in maps {
        return None;
      }
      sm := Some(maps[requestId]);
      closing := closing + {handles[requestId]};
      maps := maps - {requestId};
      handles := handles - {requestId};
    }

    /** The second half of `close`, outside the store's lock. */
    method PurgePopped(sm: EncryptedSessionMap, ghost h: nat)
      requires Valid() && h < |created| && created[h] == sm && h in closing
      modifies sm, this`closing
      ensures Valid() && created == old(created) && maps == old(maps) && sm.purged
      ensures State() == Next(old(State()), FinishClose(h), idleTimeout)
    {
      sm.Purge();
      closing := closing - {h};
      assert Views() == PurgeAll(old(Views()), {h});
    }

    method Close(requestId: string)
      requires Valid() && Inv(State())
      modifies this, created
      ensures Valid() && Inv(State()) && created == old(created) && requestId !in maps
      ensures requestId in old(maps) ==> old(maps)[requestId].purged
      ensures closing == old(closing)
      ensures State() == AfterClose(old(State()), requestId, idleTimeout)
    {
      ghost var start := State();
      ghost var h := if requestId in handles then handles[requestId] else 0;
      PopKeepsInv(State(), requestId, idleTimeout);
      if requestId in maps { assert RegisteredAlive(start, requestId); }
      var sm := PopForClose(requestId);
      if sm.Some? {
        FinishKeepsInv(State(), h, idleTimeout);
        PurgePopped(sm.value, h);
      }
    }

    /** The registered requests whose maps are idle. */
    method FindStale(now: int) returns (stale: set<string>)
      requires Valid()
      ensures stale == Stale(State(), now, idleTimeout) && stale <= maps.Keys
    {
      stale := set rid | rid in maps && maps[rid].IsIdle(now, idleTimeout);
      forall rid | rid in maps ensures rid in stale <==> rid in Stale(State(), now, idleTimeout) {
        assert Views()[handles[rid]] == View(maps[rid]);
      }
    }

    /** Purges the registered maps not used for the timeout and says how many there were. */
    method SweepIdle(now: int) returns (purged: nat)
      requires Valid() && Inv(State())
      modifies this, created
      ensures Valid() && Inv(State()) && created == old(created)
      ensures State() == Next(old(State()), Sweep(now), idleTimeout)
      ensures purged == |Stale(old(State()), now, idleTimeout)|
    {
      ghost var start := State();
      SweepKeepsInv(start, now, idleTimeout);
      var stale := FindStale(now);
      purged := PurgeThese(stale);
      assert HandlesOf(start, stale) == StaleHandles(start, now, idleTimeout);
    }

    method PurgeThese(stale: set<string>) returns (purged: nat)
      requires Valid() && stale <= maps.Keys
      modifies this`maps, this`handles, created
      ensures Valid() && purged == |stale|
      ensures State() == AfterPurging(old(State()), stale)
    {
      ghost var start := State();
      var todo := stale;
      purged := 0;
      NothingPurged(start);
      assert stale - todo == {};
      while todo != {}
        invariant Valid() && todo <= stale && todo <= maps.Keys
        invariant purged + |todo| == |stale|
        invariant State() == AfterPurging(start, stale - todo)
        decreases |todo|
      {
        var rid :| rid in todo;
        PurgeNext(rid, start, stale - todo);
        OneLess(stale, todo, rid);
        todo := todo - {rid};
        purged := purged + 1;
      }
      assert stale - {} == stale;
    }

    /** One more of the stale requests, after those in `done`. */
    method PurgeNext(rid: string, ghost start: World, ghost done: set<string>)
      requires Valid() && rid in maps && State() == AfterPurging(start, done)
      modifies this`maps, this`handles, maps[rid]
      ensures Valid() && maps == old(maps) - {rid}
      ensures State() == AfterPurging(start, done + {rid})
    {
      PurgeOneMore(start, done, rid);
      PurgeOne(rid);
    }

    method PurgeOne(rid: string)
      requires Valid() && rid in maps
      modifies this`maps, this`handles, maps[rid]
      ensures Valid() && maps == old(maps) - {rid}
      ensures State() == AfterPurging(old(State()), {rid})
    {
      ghost var h := handles[rid];
      var sm := maps[rid];
      maps := maps - {rid};
      handles := handles - {rid};
      sm.Purge();
      assert HandlesOf(old(State()), {rid}) == {h};
      assert Views() == PurgeAll(old(Views()), {h});
    }
  }

  ghost function HandlesOf(w: World, rids: set<string>): set<nat> {
    set rid | rid in rids && rid in w.registered :: w.registered[rid]
  }

  /** The given requests unregistered and their maps purged. */
  ghost function AfterPurging(w: World, rids: set<string>): World {
    World(PurgeAll(w.sessions, HandlesOf(w, rids)), w.registered - rids, w.closing)
  }

  lemma OneLess<T>(all: set<T>, todo: set<T>, x: T)
    requires todo <= all && x in todo
    ensures all - (todo - {x}) == (all - todo) + {x}
  {
  }

  lemma NothingPurged(w: World)
    ensures AfterPurging(w, {}) == w
  {
    assert w.registered - {} == w.registered;
    assert PurgeAll(w.sessions, HandlesOf(w, {})) == w.sessions;
  }

  lemma PurgeOneMore(w: World, done: set<string>, rid: string)
    requires rid in w.registered && rid !in done
    ensures AfterPurging(AfterPurging(w, done), {rid}) == AfterPurging(w, done + {rid})
  {
    var v := AfterPurging(w, done);
    assert HandlesOf(v, {rid}) == {w.registered[rid]};
    assert HandlesOf(w, done + {rid}) == HandlesOf(w, done) + {w.registered[rid]};
    assert v.registered - {rid} == w.registered - (done + {rid});
    assert PurgeAll(PurgeAll(w.sessions, HandlesOf(w, done)), {w.registered[rid]})
        == PurgeAll(w.sessions, HandlesOf(w, done) + {w.registered[rid]});
  }
}
