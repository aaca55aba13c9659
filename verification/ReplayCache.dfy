/**
 * The two time-and-capacity bounded caches: nonces against replayed handshakes and bindings,
 * message identifiers against duplicates. A Map that keeps insertion order is a sequence of
 * entries with distinct keys.
 */
module ReplayCache {
  import opened OrderedMap

  /** A key with the time it was put in. */
  type Entry = Slot<int>

  ghost predicate Sorted(s: seq<Entry>) {
    forall i, j :: 0 <= i < j < |s| ==> s[i].value <= s[j].value
  }

  predicate Expired(e: Entry, now: int, ttl: int) {
    now - e.value > ttl
  }

  /** The early-stopping cleanup: it deletes from the front and stops at the first live entry. */
  function DropExpired(s: seq<Entry>, now: int, ttl: int): seq<Entry> {
    if s != [] && Expired(s[0], now, ttl) then DropExpired(s[1..], now, ttl) else s
  }

  /** Capacity eviction: the oldest insertions go. */
  function Newest(s: seq<Entry>, capacity: nat): (t: seq<Entry>)
    ensures |t| <= capacity
  {
    if |s| > capacity then s[|s| - capacity..] else s
  }

  function IfAlive(e: Entry, now: int, ttl: int): seq<Entry> {
    if Expired(e, now, ttl) then [] else [e]
  }

  function Alive(s: seq<Entry>, now: int, ttl: int): seq<Entry> {
    if s == [] then [] else IfAlive(s[0], now, ttl) + Alive(s[1..], now, ttl)
  }

  lemma {:induction false} AliveAll(s: seq<Entry>, now: int, ttl: int)
    requires forall e <- s :: !Expired(e, now, ttl)
    ensures Alive(s, now, ttl) == s
  {
    if s != [] {
      assert s[0] in s;
      AliveAll(s[1..], now, ttl);
    }
  }

  /** On a cache in time order the early stop misses nothing: exactly the expired entries go. */
  lemma {:induction false} CleanupExact(s: seq<Entry>, now: int, ttl: int)
    requires Sorted(s)
    ensures DropExpired(s, now, ttl) == Alive(s, now, ttl)
  {
    if s != [] {
      if Expired(s[0], now, ttl) {
        CleanupExact(s[1..], now, ttl);
      } else {
        AliveAll(s, now, ttl);
      }
    }
  }

  // ---------------------------------------------------------------- the nonce tracker

  /** Index of the first acceptance still remembered at `now`. */
  function Skip(h: seq<Entry>, i: nat, now: int, ttl: int): (d: nat)
    requires i <= |h|
    ensures i <= d <= |h|
    ensures forall j :: i <= j < d ==> Expired(h[j], now, ttl)
    ensures d < |h| ==> !Expired(h[d], now, ttl)
    decreases |h| - i
  {
    if i < |h| && Expired(h[i], now, ttl) then Skip(h, i + 1, now, ttl) else i
  }

  function Base(h: seq<Entry>, capacity: nat): (b: nat)
    ensures b <= |h|
  {
    if |h| > capacity then |h| - capacity else 0
  }

  /** Of the whole history of acceptances, what may still be in the cache. */
  function Live(h: seq<Entry>, now: int, ttl: int, capacity: nat): seq<Entry> {
    h[Skip(h, Base(h, capacity), now, ttl)..]
  }

  /** The reference rule: the key was accepted within the time window and among the last
      `capacity` acceptances. */
  ghost predicate Replayed(h: seq<Entry>, key: string, now: int, ttl: int, capacity: nat) {
    exists i :: 0 <= i < |h| && |h| - i <= capacity && h[i].key == key && now - h[i].value <= ttl
  }

  lemma ReplayedBefore(h: seq<Entry>, key: string, now: int, ttl: int, capacity: nat)
    requires Replayed(h, key, now, ttl, capacity)
    ensures exists e <- h :: e.key == key
  {
    var i :| Base(h, capacity) <= i < |h| && h[i].key == key;
    assert h[i] in h;
  }

  /** Two acceptances of one key are more than the time window or `capacity` others apart. */
  ghost predicate Spaced(h: seq<Entry>, ttl: int, capacity: nat) {
    forall i, j :: 0 <= i < j < |h| && h[i].key == h[j].key ==>
                     h[j].value - h[i].value > ttl || j - i - 1 >= capacity
  }

  lemma {:induction false} DropIsSkip(h: seq<Entry>, i: nat, now: int, ttl: int)
    requires i <= |h|
    ensures DropExpired(h[i..], now, ttl) == h[Skip(h, i, now, ttl)..]
    decreases |h| - i
  {
    if i < |h| && Expired(h[i], now, ttl) {
      assert h[i..][1..] == h[i + 1..];
      DropIsSkip(h, i + 1, now, ttl);
    }
  }

  /** Cleaning up again later, from where the last cleanup stopped, is cleaning up from scratch. */
  lemma LiveLater(h: seq<Entry>, earlier: int, now: int, ttl: int, capacity: nat)
    requires earlier <= now
    ensures DropExpired(Live(h, earlier, ttl, capacity), now, ttl) == Live(h, now, ttl, capacity)
  {
    var b := Base(h, capacity);
    var d := Skip(h, b, earlier, ttl);
    DropIsSkip(h, d, now, ttl);
    SkipOn(h, b, d, now, ttl);
  }

  lemma {:induction false} SkipOn(h: seq<Entry>, i: nat, d: nat, now: int, ttl: int)
    requires i <= d <= |h| && forall j :: i <= j < d ==> Expired(h[j], now, ttl)
    ensures Skip(h, i, now, ttl) == Skip(h, d, now, ttl)
    decreases d - i
  {
    if i < d {
      SkipOn(h, i + 1, d, now, ttl);
    }
  }

  lemma LiveHas(h: seq<Entry>, key: string, now: int, ttl: int, capacity: nat)
    requires Sorted(h)
    ensures Has(Live(h, now, ttl, capacity), key) <==> Replayed(h, key, now, ttl, capacity)
  {
    var b := Base(h, capacity);
    var d := Skip(h, b, now, ttl);
    var live := h[d..];
    if Has(live, key) {
      var k :| 0 <= k < |live| && live[k].key == key;
      assert h[d + k] == live[k] && h[d].value <= h[d + k].value;
    }
    if Replayed(h, key, now, ttl, capacity) {
      var i :| b <= i < |h| && h[i].key == key && !Expired(h[i], now, ttl);
      assert live[i - d] == h[i] && h[i] in live;
    }
  }

  lemma SkipIs(h: seq<Entry>, i: nat, d: nat, now: int, ttl: int)
    requires i <= d <= |h| && forall j :: i <= j < d ==> Expired(h[j], now, ttl)
    requires d < |h| ==> !Expired(h[d], now, ttl)
    ensures Skip(h, i, now, ttl) == d
  {
    SkipOn(h, i, d, now, ttl);
  }

  lemma NewestSlice(h: seq<Entry>, d: nat, e: Entry, capacity: nat)
    requires d <= |h|
    ensures Newest(h[d..] + [e], capacity)
         == (h + [e])[if Base(h + [e], capacity) >= d then Base(h + [e], capacity) else d..]
  {
    assert h[d..] + [e] == (h + [e])[d..];
    var b := Base(h + [e], capacity);
    if b >= d {
      assert (h + [e])[d..][b - d..] == (h + [e])[b..];
    }
  }

  lemma LiveGrows(h: seq<Entry>, e: Entry, ttl: int, capacity: nat)
    requires ttl >= 0 && Sorted(h + [e])
    ensures Live(h + [e], e.value, ttl, capacity) == Newest(Live(h, e.value, ttl, capacity) + [e], capacity)
  {
    var now, h' := e.value, h + [e];
    var d, b' := Skip(h, Base(h, capacity), now, ttl), Base(h', capacity);
    var start := if b' >= d then b' else d;
    NewestSlice(h, d, e, capacity);
    forall j | b' <= j < start ensures Expired(h'[j], now, ttl) {
      assert h'[j] == h[j];
    }
    if d < |h| && start < |h'| {
      assert h'[d] == h[d] && h'[d].value <= h'[start].value;
    }
    SkipIs(h', b', start, now, ttl);
  }

  lemma StaysSpaced(h: seq<Entry>, e: Entry, ttl: int, capacity: nat)
    requires Spaced(h, ttl, capacity) && !Replayed(h, e.key, e.value, ttl, capacity)
    ensures Spaced(h + [e], ttl, capacity)
  {
    var h' := h + [e];
    forall i, j | 0 <= i < j < |h'| && h'[i].key == h'[j].key
      ensures h'[j].value - h'[i].value > ttl || j - i - 1 >= capacity
    {
      if j == |h| {
        assert h'[i] == h[i];
        assert i >= Base(h, capacity) ==> Expired(h[i], e.value, ttl);
      } else {
        assert h'[i] == h[i] && h'[j] == h[j];
      }
    }
  }

  /** What is still remembered never holds a key twice: the sequence is a Map. */
  lemma LiveDistinct(h: seq<Entry>, now: int, ttl: int, capacity: nat)
    requires Sorted(h) && Spaced(h, ttl, capacity) && forall e <- h :: e.value <= now
    ensures var live := Live(h, now, ttl, capacity); DistinctKeys(live) && Sorted(live) && |live| <= capacity
  {
    var b := Base(h, capacity);
    var d := Skip(h, b, now, ttl);
    var live := h[d..];
    forall i, j | 0 <= i < j < |live|
      ensures live[i].key != live[j].key && live[i].value <= live[j].value
    {
      assert live[i] == h[d + i] && live[j] == h[d + j];
      assert h[d].value <= h[d + i].value && h[d + j] in h;
    }
  }

  ghost predicate History(h: seq<Entry>, clock: int, ttl: int, capacity: nat) {
    Sorted(h) && Spaced(h, ttl, capacity) && forall e <- h :: e.value <= clock
  }

  lemma HistoryGrows(h: seq<Entry>, e: Entry, ttl: int, capacity: nat)
    requires History(h, e.value, ttl, capacity) && !Replayed(h, e.key, e.value, ttl, capacity)
    ensures History(h + [e], e.value, ttl, capacity)
  {
    StaysSpaced(h, e, ttl, capacity);
  }

  lemma HistorySorted(h: seq<Entry>, clock: int, ttl: int, capacity: nat)
    requires History(h, clock, ttl, capacity)
    ensures Sorted(h)
  {
  }

  lemma FrontAlive(h: seq<Entry>, e: Entry, ttl: int, capacity: nat)
    requires ttl >= 0
    ensures var grown := Live(h, e.value, ttl, capacity) + [e];
            DropExpired(grown, e.value, ttl) == grown
  {
  }

  class NonceTracker {
    const ttlMs: int
    const maxCapacity: nat
    var nonces: seq<Entry>
    /** Every acceptance so far, oldest first, and the time of the last call. */
    ghost var accepted: seq<Entry>
    ghost var clock: int

    ghost predicate Valid()
      reads this
    {
      && ttlMs >= 0
      && History(accepted, clock, ttlMs, maxCapacity)
      && nonces == Live(accepted, clock, ttlMs, maxCapacity)
    }

    constructor (ttlMs: int, maxCapacity: nat)
      requires ttlMs >= 0
      ensures Valid() && accepted == [] && this.ttlMs == ttlMs && this.maxCapacity == maxCapacity
    {
      this.ttlMs, this.maxCapacity := ttlMs, maxCapacity;
      nonces, accepted, clock := [], [], 0;
    }

    method Cleanup(now: int)
      modifies this`nonces
      ensures nonces == Newest(DropExpired(old(nonces), now, ttlMs), maxCapacity)
    {
      while nonces != [] && now - nonces[0].value > ttlMs
        invariant DropExpired(nonces, now, ttlMs) == DropExpired(old(nonces), now, ttlMs)
        decreases |nonces|
      {
        nonces := nonces[1..];
      }
      Evict();
    }

    method Evict()
      modifies this`nonces
      ensures nonces == Newest(old(nonces), maxCapacity)
    {
      if |nonces| > maxCapacity {
        var toRemove, removed := |nonces| - maxCapacity, 0;
        while removed < toRemove
          invariant 0 <= removed <= toRemove && nonces == old(nonces)[removed..]
        {
          nonces := nonces[1..];
          removed := removed + 1;
        }
      }
    }

    /** The clock reading is the parameter `now`; it does not run backwards. A nonce is accepted
        exactly when the reference rule over the whole history does not call it a replay. */
    method Track(nonce: string, remoteIp: string, now: int) returns (taken: bool)
      requires Valid() && (accepted == [] || clock <= now)
      modifies this
      ensures Valid() && clock == now
      ensures taken <==> !Replayed(old(accepted), nonce + "_" + remoteIp, now, ttlMs, maxCapacity)
      ensures accepted == old(accepted) + (if taken then [Slot(nonce + "_" + remoteIp, now)] else [])
    {
      assert accepted == [] ==> nonces == [];
      if accepted != [] {
        LiveLater(accepted, clock, now, ttlMs, maxCapacity);
      }
      clock := now;
      Cleanup(now);
      assert nonces == Live(accepted, now, ttlMs, maxCapacity);
      var key := nonce + "_" + remoteIp;
      LiveHas(accepted, key, now, ttlMs, maxCapacity);
      if Has(nonces, key) {
        return false;
      }
      Remember(key, now);
      taken := true;
    }

    method Remember(key: string, now: int)
      requires Valid() && clock == now && !Replayed(accepted, key, now, ttlMs, maxCapacity)
      modifies this
      ensures Valid() && clock == now
      ensures accepted == old(accepted) + [Slot(key, now)]
    {
      hide Sorted, History, Replayed, Live;
      ghost var e := Slot(key, now);
      HistoryGrows(accepted, e, ttlMs, maxCapacity);
      LiveGrows(accepted, e, ttlMs, maxCapacity) by {
        HistorySorted(accepted + [e], now, ttlMs, maxCapacity);
      }
      FrontAlive(accepted, e, ttlMs, maxCapacity);
      nonces := nonces + [Slot(key, now)];
      if |nonces| > maxCapacity {
        // The cleanup evicts down to capacity itself: the eviction that follows it has nothing to do.
        Cleanup(now);
        assert |nonces| <= maxCapacity;
      }
      accepted := accepted + [e];
    }
  }

  // ---------------------------------------------------------------- the message cache

  lemma PutAt(s: seq<Entry>, key: string, now: int, k: nat)
    requires k < |s| && s[k].key == key && DistinctKeys(s)
    ensures Put(s, key, now) == s[k := Slot(key, now)]
  {
    IndexIs(s, key, k);
  }

  /** Adding an identifier that is present keeps the cache in time order if and only if every entry
      behind it carries the current time already. The receiving handler never does so: it adds only
      what it has just found absent. */
  lemma PutKeepsOrder(s: seq<Entry>, key: string, now: int, k: nat)
    requires DistinctKeys(s) && Sorted(s) && (forall e <- s :: e.value <= now)
    requires k < |s| && s[k].key == key
    ensures Sorted(Put(s, key, now)) <==> forall j :: k < j < |s| ==> s[j].value == now
  {
    PutAt(s, key, now, k);
    var t := Put(s, key, now);
    if Sorted(t) {
      forall j | k < j < |s| ensures s[j].value == now {
        assert t[k].value <= t[j].value && t[j] == s[j] && s[j] in s;
      }
    }
  }

  /** What goes wrong otherwise: the early-stopping cleanup then leaves an expired entry behind. */
  lemma RefreshedEntryHidesExpired()
    ensures var s := Put([Slot("a", 0), Slot("b", 1)], "a", 9);
            Expired(Slot("b", 1), 10, 5) && Has(DropExpired(s, 10, 5), "b")
  {
    PutAt([Slot("a", 0), Slot("b", 1)], "a", 9, 0);
    assert DropExpired([Slot("a", 9), Slot("b", 1)], 10, 5) == [Slot("a", 9), Slot("b", 1)];
    assert Slot("b", 1) in [Slot("a", 9), Slot("b", 1)];
  }

  lemma AliveCons(e: Entry, rest: seq<Entry>, now: int, ttl: int)
    ensures Alive([e] + rest, now, ttl) == IfAlive(e, now, ttl) + Alive(rest, now, ttl)
  {
    assert ([e] + rest)[1..] == rest;
  }

  lemma {:induction false} AliveConcat(a: seq<Entry>, b: seq<Entry>, now: int, ttl: int)
    ensures Alive(a + b, now, ttl) == Alive(a, now, ttl) + Alive(b, now, ttl)
  {
    if a == [] {
      assert a + b == b;
    } else {
      hide Alive, IfAlive;
      var e, rest := a[0], a[1..];
      assert a == [e] + rest && a + b == [e] + (rest + b);
      AliveCons(e, rest, now, ttl);
      AliveCons(e, rest + b, now, ttl);
      AliveConcat(rest, b, now, ttl);
      var x, y := Alive(rest, now, ttl), Alive(b, now, ttl);
      assert IfAlive(e, now, ttl) + (x + y) == (IfAlive(e, now, ttl) + x) + y;
    }
  }

  lemma AliveWithout(s: seq<Entry>, i: nat, now: int, ttl: int)
    requires i < |s| && Expired(s[i], now, ttl)
    ensures Alive(s[..i] + s[i + 1..], now, ttl) == Alive(s, now, ttl)
  {
    AliveConcat(s[..i], s[i + 1..], now, ttl);
    AliveConcat(s[..i], s[i..], now, ttl);
    assert s == s[..i] + s[i..];
    assert s[i..][0] == s[i] && s[i..][1..] == s[i + 1..];
  }

  /** Dropping one expired entry early changes nothing the next cleanup would keep. */
  lemma DropAfterLookup(s: seq<Entry>, key: string, now: int, ttl: int)
    requires Sorted(s) && Has(s, key) && Expired(s[IndexOf(s, key)], now, ttl)
    ensures DropExpired(Delete(s, key), now, ttl) == DropExpired(s, now, ttl)
  {
    var i := IndexOf(s, key);
    AliveWithout(s, i, now, ttl);
    CleanupExact(s, now, ttl);
    CleanupExact(Delete(s, key), now, ttl);
  }

  /** An entry still in the cache and still young is a repetition by the reference rule. */
  lemma CachedIsReplayed(h: seq<Entry>, key: string, clock: int, now: int, ttl: int, capacity: nat)
    requires clock <= now
    ensures (exists e <- Live(h, clock, ttl, capacity) :: e.key == key && !Expired(e, now, ttl))
       <==> Replayed(h, key, now, ttl, capacity)
  {
    var d := Skip(h, Base(h, capacity), clock, ttl);
    if e :| e in h[d..] && e.key == key && !Expired(e, now, ttl) {
      var k :| 0 <= k < |h[d..]| && h[d..][k] == e;
      assert h[d + k] == e;
    }
    if i :| Base(h, capacity) <= i < |h| && h[i].key == key && !Expired(h[i], now, ttl) {
      assert h[d..][i - d] == h[i];
    }
  }

  lemma LiveIn(h: seq<Entry>, now: int, ttl: int, capacity: nat)
    ensures forall e <- Live(h, now, ttl, capacity) :: e in h
  {
  }

  lemma HistoryLater(h: seq<Entry>, earlier: int, now: int, ttl: int, capacity: nat)
    requires History(h, earlier, ttl, capacity) && earlier <= now
    ensures History(h, now, ttl, capacity)
  {
  }

  /** Adding an absent key after the cleanup leaves what the longer history keeps. */
  lemma AddedLive(h: seq<Entry>, e: Entry, ttl: int, capacity: nat)
    requires ttl >= 0 && History(h, e.value, ttl, capacity) && !Replayed(h, e.key, e.value, ttl, capacity)
    ensures var live := Live(h, e.value, ttl, capacity);
            Newest(Put(Newest(live, capacity), e.key, e.value), capacity) == Live(h + [e], e.value, ttl, capacity)
  {
    LiveDistinct(h, e.value, ttl, capacity);
    LiveHas(h, e.key, e.value, ttl, capacity);
    HistoryGrows(h, e, ttl, capacity);
    LiveGrows(h, e, ttl, capacity);
  }

  class MessageTtlCache {
    const ttlMs: int
    const maxCapacity: nat
    var cache: seq<Entry>
    /** Every identifier admitted so far with its time, and the time of the last admission. */
    ghost var admitted: seq<Entry>
    ghost var clock: int

    ghost predicate Valid()
      reads this
    {
      && ttlMs >= 0
      && History(admitted, clock, ttlMs, maxCapacity)
      && (forall e <- admitted :: e.value > 0)
      && cache == Live(admitted, clock, ttlMs, maxCapacity)
    }

    constructor (ttlMs: int, maxCapacity: nat)
      requires ttlMs >= 0
      ensures Valid() && admitted == [] && clock == 0 && this.ttlMs == ttlMs && this.maxCapacity == maxCapacity
    {
      this.ttlMs, this.maxCapacity := ttlMs, maxCapacity;
      cache, admitted, clock := [], [], 0;
    }

    /** A time of 0 reads as absent. Finding an expired entry deletes it. */
    method Lookup(id: string, now: int) returns (found: bool)
      requires DistinctKeys(cache)
      modifies this`cache
      ensures found <==> exists e <- old(cache) :: e.key == id && e.value != 0 && now - e.value <= ttlMs
      ensures (found || !Has(old(cache), id)) ==> cache == old(cache)
      ensures cache == old(cache) || (Has(old(cache), id) && cache == Delete(old(cache), id)
                                      && Expired(old(cache)[IndexOf(old(cache), id)], now, ttlMs))
    {
      var i := 0;
      while i < |cache| && cache[i].key != id
        invariant i <= |cache| && forall j :: 0 <= j < i ==> cache[j].key != id
      {
        i := i + 1;
      }
      IndexIs(cache, id, i);
      if i == |cache| || cache[i].value == 0 {
        return false;
      }
      if now - cache[i].value > ttlMs {
        cache := Delete(cache, id);
        return false;
      }
      assert cache[i] in cache;
      found := true;
    }

    method Evict()
      modifies this`cache
      ensures cache == Newest(old(cache), maxCapacity)
    {
      if |cache| > maxCapacity {
        var toRemove, removed := |cache| - maxCapacity, 0;
        while removed < toRemove
          invariant 0 <= removed <= toRemove && cache == old(cache)[removed..]
        {
          cache := cache[1..];
          removed := removed + 1;
        }
      }
    }

    method Cleanup(now: int)
      modifies this`cache
      ensures cache == Newest(DropExpired(old(cache), now, ttlMs), maxCapacity)
    {
      while cache != [] && now - cache[0].value > ttlMs
        invariant DropExpired(cache, now, ttlMs) == DropExpired(old(cache), now, ttlMs)
        decreases |cache|
      {
        cache := cache[1..];
      }
      Evict();
    }

    method Add(id: string, now: int)
      modifies this`cache
      ensures cache == Newest(Put(Newest(DropExpired(old(cache), now, ttlMs), maxCapacity), id, now), maxCapacity)
    {
      Cleanup(now);
      cache := Put(cache, id, now);
      Evict();
    }

    /** The receiving handler's use: look up, then add what was absent. A message is turned away
        exactly when the reference rule over the whole history calls it a repetition. */
    method Admit(id: string, now: int) returns (isNew: bool)
      requires Valid() && clock <= now && now > 0
      modifies this
      ensures Valid()
      ensures isNew <==> !Replayed(old(admitted), id, now, ttlMs, maxCapacity)
      ensures admitted == old(admitted) + (if isNew then [Slot(id, now)] else [])
    {
      hide History, Replayed, Live, Put, DropExpired;
      var found := FindLive(id, now);
      if found {
        return false;
      }
      ghost var e := Slot(id, now);
      HistoryLater(admitted, clock, now, ttlMs, maxCapacity);
      HistoryGrows(admitted, e, ttlMs, maxCapacity);
      AddedLive(admitted, e, ttlMs, maxCapacity);
      Add(id, now);
      admitted, clock := admitted + [e], now;
      isNew := true;
    }

    method FindLive(id: string, now: int) returns (found: bool)
      requires Valid() && clock <= now && now > 0
      modifies this`cache
      ensures found <==> Replayed(admitted, id, now, ttlMs, maxCapacity)
      ensures found ==> cache == old(cache)
      ensures DropExpired(cache, now, ttlMs) == Live(admitted, now, ttlMs, maxCapacity)
    {
      LiveDistinct(admitted, clock, ttlMs, maxCapacity);
      LiveLater(admitted, clock, now, ttlMs, maxCapacity);
      CachedIsReplayed(admitted, id, clock, now, ttlMs, maxCapacity);
      LiveIn(admitted, clock, ttlMs, maxCapacity);
      found := Lookup(id, now);
      if cache != old(cache) {
        DropAfterLookup(old(cache), id, now, ttlMs);
      }
    }
  }
}
