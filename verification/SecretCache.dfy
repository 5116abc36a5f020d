/** The secret getter of the interceptors: an LRU cache with expiry in front of the API. */
module SecretCache {
  import opened Wrappers

  /** Namespace of the trigger, secret name and key within the secret. */
  datatype Key = Key(namespace: string, secretName: string, secretKey: string)

  datatype Entry = Entry(key: Key, value: string, expire: int)

  /** All secrets, by namespace and name, each a map of its data. */
  type Secrets = map<(string, string), map<string, string>>

  function Read(api: Secrets, k: Key): Option<string> {
    var id := (k.namespace, k.secretName);
    if id in api && k.secretKey in api[id] then Some(api[id][k.secretKey]) else None
  }

  // ---- The cache, most recently used entry first -------------------------------------

  ghost predicate UniqueKeys(es: seq<Entry>) {
    forall i, j :: 0 <= i < |es| && 0 <= j < |es| && es[i].key == es[j].key ==> i == j
  }

  function Find(es: seq<Entry>, k: Key): (i: nat)
    ensures i <= |es|
    ensures i < |es| ==> es[i].key == k
    ensures forall j :: 0 <= j < i ==> es[j].key != k
  {
    if es == [] then 0 else if es[0].key == k then 0 else 1 + Find(es[1..], k)
  }

  function Drop(es: seq<Entry>, i: nat): seq<Entry>
    requires i < |es|
  {
    es[..i] + es[i + 1..]
  }

  /** The entries after a lookup: an expired entry is dropped, a live one moves to the front. */
  function Touched(es: seq<Entry>, k: Key, now: int): seq<Entry> {
    var i := Find(es, k);
    if i == |es| then es
    else if now > es[i].expire then Drop(es, i)
    else [es[i]] + Drop(es, i)
  }

  function Hit(es: seq<Entry>, k: Key, now: int): Option<string> {
    var i := Find(es, k);
    if i == |es| || now > es[i].expire then None else Some(es[i].value)
  }

  /** The entries after an addition: an old entry of the key is replaced, else the least recently
      used one makes room if the cache is full. */
  function Added(es: seq<Entry>, maxSize: nat, e: Entry): seq<Entry> {
    var i := Find(es, e.key);
    if i < |es| then [e] + Drop(es, i)
    else if |es| >= maxSize && es != [] then [e] + es[..|es| - 1]
    else [e] + es
  }

  class LRUExpireCache {
    const maxSize: nat
    var entries: seq<Entry>

    ghost predicate Valid()
      reads this
    {
      maxSize > 0 && UniqueKeys(entries) && |entries| <= maxSize
    }

    constructor (maxSize: nat)
      requires maxSize > 0
      ensures Valid() && entries == [] && this.maxSize == maxSize
    {
      this.maxSize := maxSize;
      entries := [];
    }

    method Get(k: Key, now: int) returns (r: Option<string>)
      requires Valid()
      modifies this
      ensures Valid() && r == old(Hit(entries, k, now)) && entries == old(Touched(entries, k, now))
    {
      var i := Find(entries, k);
      if i == |entries| { return None; }
      var e := entries[i];
      if now > e.expire {
        entries := Drop(entries, i);
        return None;
      }
      entries := [e] + Drop(entries, i);
      return Some(e.value);
    }

    method Add(k: Key, value: string, now: int, ttl: int)
      requires Valid()
      modifies this
      ensures Valid() && entries == old(Added(entries, maxSize, Entry(k, value, now + ttl)))
    {
      var e := Entry(k, value, now + ttl);
      var i := Find(entries, k);
      if i < |entries| {
        entries := [e] + Drop(entries, i);
        return;
      }
      if |entries| >= maxSize {
        entries := entries[..|entries| - 1];
      }
      entries := [e] + entries;
    }
  }

  class SecretGetter {
    const ttl: int
    const cache: LRUExpireCache

    constructor (cacheSize: nat, ttl: int)
      requires cacheSize > 0
      ensures fresh(cache) && cache.Valid() && cache.entries == [] && this.ttl == ttl
    {
      this.ttl := ttl;
      cache := new LRUExpireCache(cacheSize);
    }

    /** A value from the cache or the API; a failed lookup adds nothing.  Cache and API are looked
        at without anything in between. */
    method Get(k: Key, api: Secrets, now: int) returns (r: Option<string>)
      requires cache.Valid()
      modifies cache
      ensures cache.Valid()
      ensures old(Hit(cache.entries, k, now)).Some? ==>
        r == old(Hit(cache.entries, k, now)) && cache.entries == old(Touched(cache.entries, k, now))
      ensures old(Hit(cache.entries, k, now)).None? ==> r == Read(api, k)
      ensures r.None? ==> cache.entries == old(Touched(cache.entries, k, now))
      ensures old(Hit(cache.entries, k, now)).None? && r.Some? ==>
        cache.entries == old(Added(Touched(cache.entries, k, now), cache.maxSize,
                                   Entry(k, Read(api, k).value, now + ttl)))
    {
      r := cache.Get(k, now);
      if r.Some? { return; }
      r := Read(api, k);
      if r.None? { return; }
      cache.Add(k, r.value, now, ttl);
    }
  }

  // ---- Every run ---------------------------------------------------------------------

  /** The API's secrets from a moment on. */
  datatype Snapshot = Snapshot(since: int, api: Secrets)

  /** A request that missed the cache: on its way to the API, or back with a value. */
  datatype Request = Missed(key: Key) | Fetched(key: Key, value: string, at: int) | Finished

  datatype Returned = Returned(key: Key, value: string, time: int)

  /** `history` is all the API ever held, `requests` the gets in flight, `log` what was returned. */
  datatype State = State(now: int, history: seq<Snapshot>, entries: seq<Entry>, requests: seq<Request>,
                         log: seq<Returned>)

  datatype Action =
    | Tick(d: nat)
    | Change(api: Secrets)
    | Lookup(key: Key)
    | Fetch(i: nat)
    | Store(i: nat)

  /** The fixed parameters of a run; a fetched value is stored within `delay` (0: at once). */
  datatype Limits = Limits(maxSize: nat, ttl: nat, delay: nat)

  predicate Enabled(s: State, a: Action, lim: Limits) {
    match a
    case Tick(_) => true
    case Change(_) => true
    case Lookup(_) => true
    case Fetch(i) => i < |s.requests| && s.requests[i].Missed? && s.history != []
    case Store(i) => i < |s.requests| && s.requests[i].Fetched? && s.now - s.requests[i].at <= lim.delay
  }

  function Apply(s: State, a: Action, lim: Limits): State
    requires Enabled(s, a, lim)
  {
    match a
    case Tick(d) => s.(now := s.now + d)
    case Change(api) => s.(history := s.history + [Snapshot(s.now, api)])
    case Lookup(k) =>
      var v := Hit(s.entries, k, s.now);
      var touched := s.(entries := Touched(s.entries, k, s.now));
      if v.Some? then touched.(log := s.log + [Returned(k, v.value, s.now)])
      else touched.(requests := s.requests + [Missed(k)])
    case Fetch(i) =>
      var k := s.requests[i].key;
      var v := Read(s.history[|s.history| - 1].api, k);
      s.(requests := s.requests[i := if v.Some? then Fetched(k, v.value, s.now) else Finished])
    case Store(i) =>
      var r := s.requests[i];
      s.(entries := Added(s.entries, lim.maxSize, Entry(r.key, r.value, s.now + lim.ttl)),
         requests := s.requests[i := Finished],
         log := s.log + [Returned(r.key, r.value, s.now)])
  }

  function After(start: int, api: Secrets, acts: seq<Action>, lim: Limits): Option<State> {
    if acts == [] then Some(State(start, [Snapshot(start, api)], [], [], []))
    else
      var last := acts[|acts| - 1];
      var before := After(start, api, acts[..|acts| - 1], lim);
      if before.Some? && Enabled(before.value, last, lim) then Some(Apply(before.value, last, lim)) else None
  }

  /** Snapshot `i` was what the API held at time `t`, and it held `v` under `k`. */
  predicate HeldIn(history: seq<Snapshot>, i: int, t: int, k: Key, v: string) {
    && 0 <= i < |history|
    && history[i].since <= t
    && (i + 1 < |history| ==> t <= history[i + 1].since)
    && var api := history[i].api;
       && (k.namespace, k.secretName) in api
       && k.secretKey in api[(k.namespace, k.secretName)] && api[(k.namespace, k.secretName)][k.secretKey] == v
  }

  /** The API held `v` under `k` at some time from `from` to `to`. */
  ghost predicate HeldWithin(history: seq<Snapshot>, from: int, to: int, k: Key, v: string) {
    exists i, t :: HeldIn(history, i, t, k, v) && from <= t <= to
  }

  ghost predicate Inv(s: State, lim: Limits) {
    && s.history != [] && s.history[|s.history| - 1].since <= s.now
    && UniqueKeys(s.entries) && |s.entries| <= lim.maxSize
    && (forall j :: 0 <= j < |s.entries| ==> FreshEntry(s, lim, s.entries[j]))
    && (forall j :: 0 <= j < |s.requests| ==> FreshRequest(s, s.requests[j]))
    && (forall j :: 0 <= j < |s.log| ==> FreshReturn(s, lim, s.log[j]))
  }

  /** A value on its way back was held when it was fetched. */
  ghost predicate FreshRequest(s: State, r: Request) {
    r.Fetched? ==> r.at <= s.now && HeldWithin(s.history, r.at, r.at, r.key, r.value)
  }

  ghost predicate FreshEntry(s: State, lim: Limits, e: Entry) {
    e.expire - lim.ttl <= s.now &&
      HeldWithin(s.history, e.expire - lim.ttl - lim.delay, e.expire - lim.ttl, e.key, e.value)
  }

  ghost predicate FreshReturn(s: State, lim: Limits, r: Returned) {
    r.time <= s.now && HeldWithin(s.history, r.time - lim.ttl - lim.delay, r.time, r.key, r.value)
  }

  lemma HeldWider(h: seq<Snapshot>, from: int, to: int, from': int, to': int, k: Key, v: string)
    requires HeldWithin(h, from, to, k, v) && from' <= from && to <= to'
    ensures HeldWithin(h, from', to', k, v)
  {
    var i, t :| HeldIn(h, i, t, k, v) && from <= t <= to;
    assert HeldIn(h, i, t, k, v) && from' <= t <= to';
  }

  lemma HeldLater(h: seq<Snapshot>, s: Snapshot, from: int, to: int, k: Key, v: string)
    requires HeldWithin(h, from, to, k, v) && to <= s.since
    ensures HeldWithin(h + [s], from, to, k, v)
  {
    var i, t :| HeldIn(h, i, t, k, v) && from <= t <= to;
    assert HeldIn(h + [s], i, t, k, v);
  }

  lemma HeldNow(s: State, k: Key)
    requires s.history != [] && s.history[|s.history| - 1].since <= s.now
    requires Read(s.history[|s.history| - 1].api, k).Some?
    ensures HeldWithin(s.history, s.now, s.now, k, Read(s.history[|s.history| - 1].api, k).value)
  {
    var n := |s.history| - 1;
    assert HeldIn(s.history, n, s.now, k, Read(s.history[n].api, k).value);
  }

  lemma TouchedKeeps(es: seq<Entry>, k: Key, now: int)
    requires UniqueKeys(es)
    ensures UniqueKeys(Touched(es, k, now)) && |Touched(es, k, now)| <= |es|
    ensures forall e :: e in Touched(es, k, now) ==> e in es
  {
    var i := Find(es, k);
    hide Find, UniqueKeys, Drop;
    if i < |es| {
      DropKeeps(es, i);
      InFront(es[i], Drop(es, i));
    }
  }

  /** Dropping an entry keeps keys unique, and no other entry has its key. */
  lemma DropKeeps(es: seq<Entry>, i: nat)
    requires UniqueKeys(es) && i < |es|
    ensures UniqueKeys(Drop(es, i)) && |Drop(es, i)| == |es| - 1
    ensures forall e :: e in Drop(es, i) ==> e in es && e.key != es[i].key
  {
    var d := Drop(es, i);
    assert forall j :: 0 <= j < |d| ==> d[j] == es[if j < i then j else j + 1];
  }

  lemma InFront(e: Entry, es: seq<Entry>)
    requires UniqueKeys(es) && forall x :: x in es ==> x.key != e.key
    ensures UniqueKeys([e] + es)
  {
    var s := [e] + es;
    forall j | 0 < j < |s| ensures s[j].key != e.key { assert s[j] in es; }
  }

  lemma AddedKeeps(es: seq<Entry>, maxSize: nat, e: Entry)
    requires UniqueKeys(es) && |es| <= maxSize && maxSize > 0
    ensures UniqueKeys(Added(es, maxSize, e)) && |Added(es, maxSize, e)| <= maxSize
    ensures forall x :: x in Added(es, maxSize, e) ==> x == e || x in es
  {
    var i := Find(es, e.key);
    if i < |es| {
      hide Find, UniqueKeys, Drop;
      DropKeeps(es, i);
      InFront(e, Drop(es, i));
    } else {
      assert forall x :: x in es ==> x.key != e.key;
      hide Find;
      assert UniqueKeys(es[..if |es| > 0 then |es| - 1 else 0]);
      hide UniqueKeys;
      InFront(e, es);
      if es != [] { InFront(e, es[..|es| - 1]); }
    }
  }

  lemma ChangeInv(s: State, api: Secrets, lim: Limits)
    requires Inv(s, lim)
    ensures Inv(Apply(s, Change(api), lim), lim)
  {
    var s' := Apply(s, Change(api), lim);
    var snap := Snapshot(s.now, api);
    forall j | 0 <= j < |s.entries| ensures FreshEntry(s', lim, s.entries[j]) {
      var e := s.entries[j];
      HeldLater(s.history, snap, e.expire - lim.ttl - lim.delay, e.expire - lim.ttl, e.key, e.value);
    }
    forall j | 0 <= j < |s.requests| ensures FreshRequest(s', s.requests[j]) {
      var r := s.requests[j];
      assert FreshRequest(s, r);
      if r.Fetched? { HeldLater(s.history, snap, r.at, r.at, r.key, r.value); }
    }
    forall j | 0 <= j < |s.log| ensures FreshReturn(s', lim, s.log[j]) {
      var r := s.log[j];
      HeldLater(s.history, snap, r.time - lim.ttl - lim.delay, r.time, r.key, r.value);
    }
  }

  lemma LookupInv(s: State, k: Key, lim: Limits)
    requires Inv(s, lim)
    ensures Inv(Apply(s, Lookup(k), lim), lim)
  {
    var s' := Apply(s, Lookup(k), lim);
    var v := Hit(s.entries, k, s.now);
    hide Touched, Hit, UniqueKeys, FreshEntry, FreshReturn, FreshRequest;
    TouchedKeeps(s.entries, k, s.now);
    forall j | 0 <= j < |s'.requests| ensures FreshRequest(s', s'.requests[j]) {
      if j < |s.requests| { RequestStays(s, s', s.requests[j]); } else { RequestIsNew(s', s'.requests[j]); }
    }
    forall j | 0 <= j < |s'.entries| ensures FreshEntry(s', lim, s'.entries[j]) {
      assert s'.entries[j] in Touched(s.entries, k, s.now);
      var i :| 0 <= i < |s.entries| && s.entries[i] == s'.entries[j];
      EntryStays(s, s', lim, s.entries[i]);
    }
    if v.Some? {
      HitIsFresh(s, k, lim);
      ReturnStays(s, s', lim, Returned(k, v.value, s.now));
    }
    forall j | 0 <= j < |s.log| ensures FreshReturn(s', lim, s.log[j]) { ReturnStays(s, s', lim, s.log[j]); }
  }

  /** Neither time nor history moves, so what was fresh stays so. */
  lemma EntryStays(s: State, s': State, lim: Limits, e: Entry)
    requires FreshEntry(s, lim, e) && s'.now == s.now && s'.history == s.history
    ensures FreshEntry(s', lim, e)
  {
  }

  lemma ReturnStays(s: State, s': State, lim: Limits, r: Returned)
    requires FreshReturn(s, lim, r) && s'.now == s.now && s'.history == s.history
    ensures FreshReturn(s', lim, r)
  {
  }

  lemma RequestStays(s: State, s': State, r: Request)
    requires FreshRequest(s, r) && s'.now == s.now && s'.history == s.history
    ensures FreshRequest(s', r)
  {
  }

  lemma RequestIsNew(s: State, r: Request)
    requires !r.Fetched?
    ensures FreshRequest(s, r)
  {
  }

  /** A hit is fresh enough to be returned. */
  lemma HitIsFresh(s: State, k: Key, lim: Limits)
    requires Inv(s, lim) && Hit(s.entries, k, s.now).Some?
    ensures FreshReturn(s, lim, Returned(k, Hit(s.entries, k, s.now).value, s.now))
  {
    var e := s.entries[Find(s.entries, k)];
    assert FreshEntry(s, lim, e);
    hide Find, UniqueKeys, HeldWithin;
    HeldWider(s.history, e.expire - lim.ttl - lim.delay, e.expire - lim.ttl, s.now - lim.ttl - lim.delay, s.now,
              e.key, e.value);
  }

  lemma FetchInv(s: State, i: nat, lim: Limits)
    requires Inv(s, lim) && Enabled(s, Fetch(i), lim)
    ensures Inv(Apply(s, Fetch(i), lim), lim)
  {
    var s' := Apply(s, Fetch(i), lim);
    var k := s.requests[i].key;
    if Read(s.history[|s.history| - 1].api, k).Some? { HeldNow(s, k); }
    forall j | 0 <= j < |s'.requests| ensures FreshRequest(s', s'.requests[j]) {
      if j != i { assert FreshRequest(s, s.requests[j]); }
    }
    forall j | 0 <= j < |s.entries|
      ensures FreshEntry(s', lim, s.entries[j]) { assert FreshEntry(s, lim, s.entries[j]); }
    forall j | 0 <= j < |s.log| ensures FreshReturn(s', lim, s.log[j]) { assert FreshReturn(s, lim, s.log[j]); }
  }

  lemma StoredEntries(s: State, i: nat, lim: Limits)
    requires Inv(s, lim) && Enabled(s, Store(i), lim) && lim.maxSize > 0
    ensures var s' := Apply(s, Store(i), lim);
      forall j :: 0 <= j < |s'.entries| ==> FreshEntry(s', lim, s'.entries[j])
  {
    var s' := Apply(s, Store(i), lim);
    var r := s.requests[i];
    var e := Entry(r.key, r.value, s.now + lim.ttl);
    assert FreshRequest(s, r);
    hide Added, UniqueKeys, HeldWithin;
    AddedKeeps(s.entries, lim.maxSize, e);
    HeldWider(s.history, r.at, r.at, s.now - lim.delay, s.now, r.key, r.value);
    assert FreshEntry(s', lim, e);
    forall j | 0 <= j < |s'.entries| ensures FreshEntry(s', lim, s'.entries[j]) {
      assert s'.entries[j] in Added(s.entries, lim.maxSize, e);
      if s'.entries[j] != e {
        var x :| 0 <= x < |s.entries| && s.entries[x] == s'.entries[j];
        assert FreshEntry(s, lim, s.entries[x]);
      }
    }
  }

  lemma StoreInv(s: State, i: nat, lim: Limits)
    requires Inv(s, lim) && Enabled(s, Store(i), lim) && lim.maxSize > 0
    ensures Inv(Apply(s, Store(i), lim), lim)
  {
    var s' := Apply(s, Store(i), lim);
    var r := s.requests[i];
    var e := Entry(r.key, r.value, s.now + lim.ttl);
    hide Added, UniqueKeys, FreshEntry, FreshReturn, FreshRequest;
    forall j | 0 <= j < |s'.requests| ensures FreshRequest(s', s'.requests[j]) {
      if j != i { RequestStays(s, s', s.requests[j]); } else { RequestIsNew(s', s'.requests[j]); }
    }
    AddedKeeps(s.entries, lim.maxSize, e);
    StoredEntries(s, i, lim);
    FetchedIsFresh(s, i, lim);
    ReturnStays(s, s', lim, Returned(r.key, r.value, s.now));
    forall j | 0 <= j < |s.log| ensures FreshReturn(s', lim, s.log[j]) { ReturnStays(s, s', lim, s.log[j]); }
  }

  lemma FetchedIsFresh(s: State, i: nat, lim: Limits)
    requires Inv(s, lim) && Enabled(s, Store(i), lim)
    ensures var r := s.requests[i]; FreshReturn(s, lim, Returned(r.key, r.value, s.now))
  {
    var r := s.requests[i];
    assert FreshRequest(s, r);
    hide UniqueKeys, HeldWithin, FreshEntry;
    HeldWider(s.history, r.at, r.at, s.now - lim.ttl - lim.delay, s.now, r.key, r.value);
  }

  lemma TickInv(s: State, d: nat, lim: Limits)
    requires Inv(s, lim)
    ensures Inv(Apply(s, Tick(d), lim), lim)
  {
    var s' := Apply(s, Tick(d), lim);
    forall j | 0 <= j < |s.entries|
      ensures FreshEntry(s', lim, s.entries[j]) { assert FreshEntry(s, lim, s.entries[j]); }
    forall j | 0 <= j < |s.requests|
      ensures FreshRequest(s', s.requests[j]) { assert FreshRequest(s, s.requests[j]); }
    forall j | 0 <= j < |s.log| ensures FreshReturn(s', lim, s.log[j]) { assert FreshReturn(s, lim, s.log[j]); }
  }

  lemma {:induction false} RunInv(start: int, api: Secrets, acts: seq<Action>, lim: Limits)
    requires lim.maxSize > 0 && After(start, api, acts, lim).Some?
    ensures Inv(After(start, api, acts, lim).value, lim)
    decreases |acts|
  {
    if acts != [] {
      var n := |acts| - 1;
      RunInv(start, api, acts[..n], lim);
      var s := After(start, api, acts[..n], lim).value;
      match acts[n]
      case Tick(d) => TickInv(s, d, lim);
      case Change(a) => ChangeInv(s, a, lim);
      case Lookup(k) => LookupInv(s, k, lim);
      case Fetch(i) => FetchInv(s, i, lim);
      case Store(i) => StoreInv(s, i, lim);
    }
  }

  /** The steps of one get with nothing in between, on the last request of the state. */
  function GetSteps(s: State, k: Key, lim: Limits): seq<Action>
    requires s.history != []
  {
    if Hit(s.entries, k, s.now).Some? then [Lookup(k)]
    else if Read(s.history[|s.history| - 1].api, k).None? then [Lookup(k), Fetch(|s.requests|)]
    else [Lookup(k), Fetch(|s.requests|), Store(|s.requests|)]
  }

  function Follow(s: State, acts: seq<Action>, lim: Limits): Option<State>
    decreases |acts|
  {
    if acts == [] then Some(s)
    else if Enabled(s, acts[0], lim) then Follow(Apply(s, acts[0], lim), acts[1..], lim)
    else None
  }

  /** A call of the getter is a stretch of a run: those steps, and what the run's cache holds and
      returns is what the call leaves in its cache and returns. */
  lemma GetIsRun(s: State, k: Key, lim: Limits)
    requires s.history != []
    ensures var api := s.history[|s.history| - 1].api; var hit := Hit(s.entries, k, s.now);
      var value := if hit.Some? then hit else Read(api, k); var s' := Follow(s, GetSteps(s, k, lim), lim);
      && s'.Some? && s'.value.now == s.now && s'.value.history == s.history
      && s'.value.log == s.log + (if value.Some? then [Returned(k, value.value, s.now)] else [])
      && s'.value.entries ==
         (if hit.None? && value.Some? then
            Added(Touched(s.entries, k, s.now), lim.maxSize, Entry(k, value.value, s.now + lim.ttl))
          else Touched(s.entries, k, s.now))
  {
    hide Touched, Added, Hit, Read;
    var acts := GetSteps(s, k, lim);
    var a := Apply(s, Lookup(k), lim);
    var hit := Hit(s.entries, k, s.now);
    assert Follow(s, acts, lim) == Follow(a, acts[1..], lim);
    if hit.None? {
      var i := |s.requests|;
      assert a.requests[i] == Missed(k);
      var b := Apply(a, Fetch(i), lim);
      assert Follow(a, acts[1..], lim) == Follow(b, acts[2..], lim) by { assert acts[1..][1..] == acts[2..]; }
      if Read(s.history[|s.history| - 1].api, k).Some? {
        assert acts[2..] == [Store(i)] && acts[2..][1..] == [];
        assert Follow(b, acts[2..], lim) == Follow(Apply(b, Store(i), lim), [], lim);
      }
    }
  }

  /** Over every run, a value returned at time T for a key was held by the API under exactly that
      key at some time in [T - ttl - delay, T]; and the cache never outgrows its capacity. */
  lemma ReturnedIsFresh(start: int, api: Secrets, acts: seq<Action>, lim: Limits)
    requires lim.maxSize > 0 && After(start, api, acts, lim).Some?
    ensures var s := After(start, api, acts, lim).value;
      && |s.entries| <= lim.maxSize
      && forall j :: 0 <= j < |s.log| ==>
        HeldWithin(s.history, s.log[j].time - lim.ttl - lim.delay, s.log[j].time, s.log[j].key, s.log[j].value)
  {
    RunInv(start, api, acts, lim);
    var s := After(start, api, acts, lim).value;
    forall j | 0 <= j < |s.log|
      ensures HeldWithin(s.history, s.log[j].time - lim.ttl - lim.delay, s.log[j].time, s.log[j].key, s.log[j].value)
    {
      assert FreshReturn(s, lim, s.log[j]);
    }
  }

  // ---- What the cache holds ----------------------------------------------------------

  /** A lookup is a hit exactly when an entry of the key is there and has not expired. */
  lemma HitExact(es: seq<Entry>, k: Key, now: int, v: string)
    requires UniqueKeys(es)
    ensures Hit(es, k, now) == Some(v) <==>
      exists i :: 0 <= i < |es| && es[i].key == k && es[i].value == v && now <= es[i].expire
  {
    var i := Find(es, k);
    hide Find;
    if i < |es| { assert es[i].key == k; }
  }

  /** A lookup drops the expired entry of its key, and nothing else. */
  lemma TouchedExact(es: seq<Entry>, k: Key, now: int, e: Entry)
    requires UniqueKeys(es)
    ensures e in Touched(es, k, now) <==> e in es && !(e.key == k && now > e.expire)
  {
    var i := Find(es, k);
    hide Find;
    if i < |es| { DropExact(es, i, e); }
  }

  lemma DropExact(es: seq<Entry>, i: nat, e: Entry)
    requires UniqueKeys(es) && i < |es|
    ensures e in Drop(es, i) <==> e in es && e.key != es[i].key
  {
    DropKeeps(es, i);
    var d := Drop(es, i);
    if e in es && e.key != es[i].key {
      var j :| 0 <= j < |es| && es[j] == e;
      assert d[if j < i then j else j - 1] == e;
    }
  }

  /** After an addition the cache holds the new entry and all others, but for one of the same key or,
      if there was none and the cache was full, the last. */
  lemma AddedExact(es: seq<Entry>, maxSize: nat, e: Entry, x: Entry)
    requires UniqueKeys(es) && 0 < |es| <= maxSize
    ensures var known := exists i :: 0 <= i < |es| && es[i].key == e.key;
      x in Added(es, maxSize, e) <==>
        x == e || (x in es && x.key != e.key && (known || |es| < maxSize || x != es[|es| - 1]))
  {
    var i := Find(es, e.key);
    var n := |es| - 1;
    if i < |es| {
      assert es[i].key == e.key;
      hide Find;
      DropExact(es, i, x);
    } else {
      assert forall y :: y in es ==> y.key != e.key;
      hide Find;
      if x in es && x != es[n] {
        var j :| 0 <= j < |es| && es[j] == x;
        assert es[..n][j] == x;
      }
      if x in es[..n] {
        var j :| 0 <= j < n && es[..n][j] == x;
        assert es[j] == x && es[j].key == es[n].key ==> j == n;
      }
    }
  }

  /** What was added is served, from then until it expires. */
  lemma AddedIsServed(es: seq<Entry>, maxSize: nat, e: Entry, now: int)
    requires UniqueKeys(es) && |es| <= maxSize && maxSize > 0
    ensures Hit(Added(es, maxSize, e), e.key, now) == if now <= e.expire then Some(e.value) else None
  {
    assert Added(es, maxSize, e)[0] == e;
  }

  // ---- Least recently used -----------------------------------------------------------

  /** Operations on a cache. */
  datatype Op = Look(key: Key, now: int) | Put(entry: Entry)

  function KeyOf(op: Op): Key {
    match op
    case Look(k, _) => k
    case Put(e) => e.key
  }

  function Cached(ops: seq<Op>, maxSize: nat): seq<Entry> {
    if ops == [] then []
    else
      var before := Cached(ops[..|ops| - 1], maxSize);
      match ops[|ops| - 1]
      case Look(k, now) => Touched(before, k, now)
      case Put(e) => Added(before, maxSize, e)
  }

  /** The last operation on a key, or -1. */
  function LastUse(ops: seq<Op>, k: Key): (i: int)
    ensures -1 <= i < |ops|
  {
    if ops == [] then -1
    else if KeyOf(ops[|ops| - 1]) == k then |ops| - 1
    else LastUse(ops[..|ops| - 1], k)
  }

  /** The order is that of the last use, the most recent first. */
  predicate ByLastUse(es: seq<Entry>, ops: seq<Op>) {
    forall i, j :: 0 <= i < j < |es| ==> LastUse(ops, es[i].key) > LastUse(ops, es[j].key)
  }

  lemma OrderLater(es: seq<Entry>, ops: seq<Op>)
    requires ops != [] && ByLastUse(es, ops[..|ops| - 1]) && forall e :: e in es ==> e.key != KeyOf(ops[|ops| - 1])
    ensures ByLastUse(es, ops)
    ensures forall e :: e in es ==> LastUse(ops, e.key) < |ops| - 1
  {
    forall i | 0 <= i < |es| ensures LastUse(ops, es[i].key) == LastUse(ops[..|ops| - 1], es[i].key) {
      assert es[i] in es;
    }
  }

  lemma OrderFront(e: Entry, es: seq<Entry>, ops: seq<Op>)
    requires ByLastUse(es, ops) && forall x :: x in es ==> LastUse(ops, x.key) < LastUse(ops, e.key)
    ensures ByLastUse([e] + es, ops)
  {
    var s := [e] + es;
    forall i, j | 0 <= i < j < |s| ensures LastUse(ops, s[i].key) > LastUse(ops, s[j].key) {
      assert s[j] == es[j - 1] && es[j - 1] in es;
      if i > 0 { assert s[i] == es[i - 1]; }
    }
  }

  lemma OrderDrop(es: seq<Entry>, i: nat, ops: seq<Op>)
    requires ByLastUse(es, ops) && i < |es|
    ensures ByLastUse(Drop(es, i), ops)
  {
    var d := Drop(es, i);
    assert forall j :: 0 <= j < |d| ==> d[j] == es[if j < i then j else j + 1];
  }

  /** After every sequence of lookups and additions the entries stand in the order of their last use. */
  lemma {:induction false} MostRecentFirst(ops: seq<Op>, maxSize: nat)
    requires maxSize > 0
    ensures UniqueKeys(Cached(ops, maxSize)) && |Cached(ops, maxSize)| <= maxSize
    ensures ByLastUse(Cached(ops, maxSize), ops)
    decreases |ops|
  {
    hide Touched, Added, ByLastUse, UniqueKeys;
    if ops == [] {
      NothingCached();
    } else {
      var n := |ops| - 1;
      var es := Cached(ops[..n], maxSize);
      MostRecentFirst(ops[..n], maxSize);
      match ops[n]
      case Look(k, now) =>
        TouchedKeeps(es, k, now);
        LookOrders(es, ops);
      case Put(e) =>
        AddedKeeps(es, maxSize, e);
        PutOrders(es, ops, maxSize);
    }
  }

  lemma NothingCached()
    ensures UniqueKeys([]) && forall ops :: ByLastUse([], ops)
  {
  }

  lemma LookOrders(es: seq<Entry>, ops: seq<Op>)
    requires ops != [] && ops[|ops| - 1].Look? && UniqueKeys(es) && ByLastUse(es, ops[..|ops| - 1])
    ensures var op := ops[|ops| - 1]; ByLastUse(Touched(es, op.key, op.now), ops)
  {
    var op := ops[|ops| - 1];
    var i := Find(es, op.key);
    assert i == |es| ==> forall e :: e in es ==> e.key != op.key;
    hide Find, ByLastUse, UniqueKeys, Drop;
    if i == |es| {
      OrderLater(es, ops);
    } else {
      DropKeeps(es, i);
      OrderDrop(es, i, ops[..|ops| - 1]);
      OrderLater(Drop(es, i), ops);
      OrderFront(es[i], Drop(es, i), ops);
    }
  }

  lemma PutOrders(es: seq<Entry>, ops: seq<Op>, maxSize: nat)
    requires ops != [] && ops[|ops| - 1].Put? && UniqueKeys(es) && ByLastUse(es, ops[..|ops| - 1])
    ensures ByLastUse(Added(es, maxSize, ops[|ops| - 1].entry), ops)
  {
    var e := ops[|ops| - 1].entry;
    var i := Find(es, e.key);
    assert i == |es| ==> forall x :: x in es ==> x.key != e.key;
    assert es != [] ==> ByLastUse(es[..|es| - 1], ops[..|ops| - 1]);
    hide Find, ByLastUse, UniqueKeys, Drop;
    if i < |es| {
      DropKeeps(es, i);
      OrderDrop(es, i, ops[..|ops| - 1]);
      OrderLater(Drop(es, i), ops);
      OrderFront(e, Drop(es, i), ops);
    } else {
      OrderLater(es, ops);
      OrderFront(e, es, ops);
      if es != [] {
        OrderLater(es[..|es| - 1], ops);
        OrderFront(e, es[..|es| - 1], ops);
      }
    }
  }

  /** An entry that an addition under another key drives out is the one whose last use is longest ago. */
  lemma EvictsLeastRecentlyUsed(ops: seq<Op>, maxSize: nat, e: Entry, x: Entry, y: Entry)
    requires maxSize > 0 && x.key != e.key && x in Cached(ops, maxSize) && x !in Added(Cached(ops, maxSize), maxSize, e)
    requires y in Cached(ops, maxSize) && y != x
    ensures LastUse(ops, x.key) < LastUse(ops, y.key)
  {
    var es := Cached(ops, maxSize);
    MostRecentFirst(ops, maxSize);
    hide Added, Cached, UniqueKeys, LastUse;
    AddedExact(es, maxSize, e, x);
    var j :| 0 <= j < |es| && es[j] == y;
    assert x == es[|es| - 1];
  }
}
