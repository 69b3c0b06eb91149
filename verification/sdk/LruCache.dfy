/** The SDK's read cache (cache.ts): a map in recency order with a per-entry lifetime. */
module LruCache {
  import opened Results

  datatype Entry<T> = Entry(value: T, expiresAt: int)

  datatype Slot<T> = Slot(key: string, entry: Entry<T>)

  // ----- The language's Map: insertion order, as ECMA-262 section 24.1 prescribes -----

  /** The position of the key, or the size when it is absent. */
  function Index<T>(m: seq<Slot<T>>, key: string): (i: nat)
    ensures i <= |m| && (i < |m| ==> m[i].key == key)
    ensures forall j :: 0 <= j < i ==> m[j].key != key
  {
    if m == [] then 0 else if m[0].key == key then 0 else 1 + Index(m[1..], key)
  }

  predicate Has<T>(m: seq<Slot<T>>, key: string) {
    Index(m, key) < |m|
  }

  function Delete<T>(m: seq<Slot<T>>, key: string): seq<Slot<T>> {
    var i := Index(m, key);
    if i < |m| then m[..i] + m[i + 1..] else m
  }

  /** A key already present keeps its place; a new one goes last. */
  function Put<T>(m: seq<Slot<T>>, key: string, entry: Entry<T>): seq<Slot<T>> {
    var i := Index(m, key);
    if i < |m| then m[i := Slot(key, entry)] else m + [Slot(key, entry)]
  }

  predicate Unique<T>(m: seq<Slot<T>>) {
    forall i, j :: 0 <= i < j < |m| ==> m[i].key != m[j].key
  }

  lemma DeleteLaws<T>(m: seq<Slot<T>>, key: string)
    requires Unique(m)
    ensures Unique(Delete(m, key)) && !Has(Delete(m, key), key)
    ensures |Delete(m, key)| == |m| - (if Has(m, key) then 1 else 0)
    ensures forall s :: s in Delete(m, key) <==> s in m && s.key != key
  {
    var i := Index(m, key);
    var rest := Delete(m, key);
    if i < |m| {
      assert m == m[..i] + [m[i]] + m[i + 1..];
      forall j | 0 <= j < |rest| ensures rest[j].key != key {
        assert rest[j] == m[if j < i then j else j + 1];
      }
    }
  }

  lemma DeleteAt<T>(m: seq<Slot<T>>, i: nat)
    requires Unique(m) && i < |m|
    ensures Delete(m, m[i].key) == m[..i] + m[i + 1..] && Unique(Delete(m, m[i].key))
  {
    DeleteLaws(m, m[i].key);
  }

  lemma AppendUnique<T>(m: seq<Slot<T>>, s: Slot<T>)
    requires Unique(m) && forall x :: x in m ==> x.key != s.key
    ensures Unique(m + [s])
  {
  }

  lemma PutAbsent<T>(m: seq<Slot<T>>, key: string, entry: Entry<T>)
    requires Unique(m) && !Has(m, key)
    ensures Put(m, key, entry) == m + [Slot(key, entry)] && Unique(m + [Slot(key, entry)])
  {
  }

  // ----- What the cache does, as a function of its contents -----

  predicate Expired<T>(ttlMs: int, entry: Entry<T>, now: int) {
    ttlMs > 0 && entry.expiresAt <= now
  }

  function Live<T>(m: seq<Slot<T>>, ttlMs: int, now: int): seq<Slot<T>> {
    if m == [] then []
    else
      var rest := Live(m[..|m| - 1], ttlMs, now);
      if Expired(ttlMs, m[|m| - 1].entry, now) then rest else rest + [m[|m| - 1]]
  }

  function Newest<T>(m: seq<Slot<T>>, count: nat): seq<Slot<T>> {
    if |m| > count then m[|m| - count..] else m
  }

  datatype Cache<T> = Cache(maxEntries: nat, ttlMs: nat, slots: seq<Slot<T>>, hits: nat, misses: nat) {
    /** A hit moves the key to the recent end; an expired entry is dropped and counts as a miss. */
    function Get(key: string, now: int): (Cache<T>, Option<T>) {
      var i := Index(slots, key);
      if i == |slots| then (this.(misses := misses + 1), None)
      else if Expired(ttlMs, slots[i].entry, now) then
        (this.(slots := Delete(slots, key), misses := misses + 1), None)
      else
        (this.(slots := Delete(slots, key) + [slots[i]], hits := hits + 1), Some(slots[i].entry.value))
    }

    /** The newest `maxEntries` of the entries still live. */
    function Evict(now: int): Cache<T> {
      this.(slots := Newest(Live(slots, ttlMs, now), maxEntries))
    }

    /** `now` stamps the entry, `evictNow` is the clock read again by the eviction. */
    function Set(key: string, value: T, ttl: int, now: int, evictNow: int): Cache<T> {
      this.(slots := Delete(slots, key) + [Slot(key, Entry(value, now + ttl))]).Evict(evictNow)
    }

    function Remove(key: string): (Cache<T>, bool) {
      (this.(slots := Delete(slots, key)), Has(slots, key))
    }

    function Clear(): Cache<T> {
      this.(slots := [])
    }
  }

  // ----- Laws of eviction -----

  /** Filtering keeps exactly the unexpired entries. */
  lemma {:induction false} LiveLaws<T>(m: seq<Slot<T>>, ttlMs: int, now: int)
    requires Unique(m)
    ensures Unique(Live(m, ttlMs, now)) && |Live(m, ttlMs, now)| <= |m|
    ensures forall s :: s in Live(m, ttlMs, now) ==> s in m && (ttlMs <= 0 || now < s.entry.expiresAt)
    ensures forall s :: s in m && (ttlMs <= 0 || now < s.entry.expiresAt) ==> s in Live(m, ttlMs, now)
  {
    if m != [] {
      var init := m[..|m| - 1];
      LiveLaws(init, ttlMs, now);
      assert m == init + [m[|m| - 1]];
      forall x | x in Live(init, ttlMs, now) ensures x.key != m[|m| - 1].key {
        var j :| 0 <= j < |init| && init[j] == x;
        assert m[j] == x;
      }
      AppendUnique(Live(init, ttlMs, now), m[|m| - 1]);
    }
  }

  /** Filtering keeps the order: older entries stay before newer ones. */
  lemma {:induction false} LiveInOrder<T>(older: seq<Slot<T>>, newer: seq<Slot<T>>, ttlMs: int, now: int)
    ensures Live(older + newer, ttlMs, now) == Live(older, ttlMs, now) + Live(newer, ttlMs, now)
  {
    if newer == [] {
      assert older + newer == older;
    } else {
      assert (older + newer)[..|older + newer| - 1] == older + newer[..|newer| - 1];
      LiveInOrder(older, newer[..|newer| - 1], ttlMs, now);
    }
  }

  /** What the eviction keeps was there before and has not expired; it drops a live entry only when
      the capacity is filled by the ones after it. */
  lemma EvictLaws<T>(c: Cache<T>, now: int)
    requires Unique(c.slots)
    ensures var kept := c.Evict(now).slots; var live := Live(c.slots, c.ttlMs, now);
            && Unique(kept) && |kept| <= c.maxEntries
            && |kept| <= |live| && kept == live[|live| - |kept|..]
            && (kept != live ==> |kept| == c.maxEntries)
            && forall s :: s in kept ==> s in c.slots && (c.ttlMs <= 0 || now < s.entry.expiresAt)
  {
    var live := Live(c.slots, c.ttlMs, now);
    LiveLaws(c.slots, c.ttlMs, now);
    NewestLaws(live, c.maxEntries);
  }

  // ----- Laws of the single operations -----

  /** A `get` answers the key's value exactly while the entry lasts, counts one hit for an answer and one
      miss otherwise, drops an entry that has run out, and moves one that answered to the recent end. */
  lemma GetExact<T>(c: Cache<T>, key: string, now: int)
    requires Unique(c.slots)
    ensures var (c', answer) := c.Get(key, now);
            && (forall s :: s in c.slots && s.key == key ==>
                  answer == if c.ttlMs == 0 || now < s.entry.expiresAt then Some(s.entry.value) else None)
            && ((forall s :: s in c.slots ==> s.key != key) ==> answer == None)
            && c'.hits == c.hits + (if answer.Some? then 1 else 0)
            && c'.misses == c.misses + (if answer.Some? then 0 else 1)
            && (answer.None? ==> forall s :: s in c'.slots <==> s in c.slots && s.key != key)
            && (answer.Some? ==>
                  && (forall s :: s in c'.slots <==> s in c.slots)
                  && c'.slots != [] && c'.slots[|c'.slots| - 1].key == key)
  {
    hide Delete;
    DeleteLaws(c.slots, key);
    var i := Index(c.slots, key);
    if i < |c.slots| {
      assert forall s :: s in c.slots && s.key == key ==> s == c.slots[i] by { OneSlot(c.slots, i); }
    }
  }

  lemma OneSlot<T>(m: seq<Slot<T>>, i: nat)
    requires Unique(m) && i < |m|
    ensures forall s :: s in m && s.key == m[i].key ==> s == m[i]
  {
  }

  /** A `delete` says whether the key was there, removes its entry and touches nothing else. */
  lemma RemoveExact<T>(c: Cache<T>, key: string)
    requires Unique(c.slots)
    ensures var (c', there) := c.Remove(key);
            && (there <==> exists s :: s in c.slots && s.key == key)
            && (forall s :: s in c'.slots <==> s in c.slots && s.key != key)
            && c'.hits == c.hits && c'.misses == c.misses
  {
    hide Delete;
    DeleteLaws(c.slots, key);
    var i := Index(c.slots, key);
    if i < |c.slots| {
      assert c.slots[i] in c.slots;
    }
  }

  lemma NewestLaws<T>(m: seq<Slot<T>>, count: nat)
    requires Unique(m)
    ensures var kept := Newest(m, count);
            && Unique(kept) && |kept| <= count && |kept| <= |m|
            && kept == m[|m| - |kept|..] && (kept != m ==> |kept| == count)
            && forall s :: s in kept ==> s in m
  {
    var kept := Newest(m, count);
    assert kept == m[|m| - |kept|..];
  }

  lemma LiveNothing<T>(ttlMs: int, now: int)
    ensures Live<T>([], ttlMs, now) == []
  {
  }

  /** One step of the expiry pass: the part already filtered grows by the next entry or not. */
  lemma ExpiryStep<T>(m: seq<Slot<T>>, done: nat, ttlMs: int, now: int)
    requires done < |m|
    ensures var kept, kept' := Live(m[..done], ttlMs, now), Live(m[..done + 1], ttlMs, now);
            var at := kept + m[done..];
            && at[|kept|] == m[done]
            && if Expired(ttlMs, m[done].entry, now) then
                 kept' == kept && at[..|kept|] + at[|kept| + 1..] == kept' + m[done + 1..]
               else kept' == kept + [m[done]] && at == kept' + m[done + 1..]
  {
    assert m[..done + 1][..done] == m[..done];
  }

  // ----- The class -----

  class LruCache<T> {
    const maxEntries: nat
    const ttlMs: nat
    var map': seq<Slot<T>>
    var hits: nat
    var misses: nat

    predicate Valid()
      reads this
    {
      1 <= maxEntries && |map'| <= maxEntries && Unique(map')
    }

    function View(): Cache<T>
      reads this
    {
      Cache(maxEntries, ttlMs, map', hits, misses)
    }

    constructor (maxEntries: Option<int>, ttlMs: Option<int>)
      ensures Valid() && map' == [] && hits == 0 && misses == 0
      ensures this.maxEntries ==
              (if maxEntries.None? then 128 else if maxEntries.value < 1 then 1 else maxEntries.value)
      ensures this.ttlMs == (if ttlMs.None? then 15_000 else if ttlMs.value < 0 then 0 else ttlMs.value)
    {
      var requested := if maxEntries.None? then 128 else maxEntries.value;
      var lifetime := if ttlMs.None? then 15_000 else ttlMs.value;
      this.maxEntries := if requested < 1 then 1 else requested;
      this.ttlMs := if lifetime < 0 then 0 else lifetime;
      map', hits, misses := [], 0, 0;
    }

    method Get(key: string, now: int) returns (r: Option<T>)
      requires Valid()
      modifies this
      ensures Valid()
      ensures (View(), r) == old(View()).Get(key, now)
    {
      DeleteLaws(map', key);
      if !Has(map', key) {
        misses := misses + 1;
        return None;
      }
      var entry := map'[Index(map', key)].entry;
      if ttlMs > 0 && entry.expiresAt <= now {
        map' := Delete(map', key);
        misses := misses + 1;
        return None;
      }
      PutAbsent(Delete(map', key), key, entry);
      map' := Delete(map', key);
      map' := Put(map', key, entry);
      hits := hits + 1;
      return Some(entry.value);
    }

    /** `ttl` is the caller's lifetime for this entry, by default the cache's own. */
    method Set(key: string, value: T, ttl: Option<int>, now: int, evictNow: int) returns (r: T)
      requires Valid()
      modifies this
      ensures Valid()
      ensures View() == old(View()).Set(key, value, if ttl.None? then ttlMs else ttl.value, now, evictNow)
      ensures r == value
    {
      hide Live, Newest, Unique, Index;
      var lifetime := if ttl.None? then ttlMs else ttl.value;
      DeleteLaws(map', key);
      PutAbsent(Delete(map', key), key, Entry(value, now + lifetime));
      if Has(map', key) {
        map' := Delete(map', key);
      }
      map' := Put(map', key, Entry(value, now + lifetime));
      Evict(evictNow);
      return value;
    }

    method DeleteKey(key: string) returns (r: bool)
      requires Valid()
      modifies this`map'
      ensures Valid()
      ensures (View(), r) == old(View()).Remove(key)
    {
      DeleteLaws(map', key);
      r := Has(map', key);
      map' := Delete(map', key);
    }

    method Clear()
      requires Valid()
      modifies this`map'
      ensures Valid()
      ensures View() == old(View()).Clear()
    {
      map' := [];
    }

    /** First drops what has expired, then the oldest while there are too many. */
    method Evict(now: int)
      requires 1 <= maxEntries && Unique(map')
      modifies this`map'
      ensures Valid()
      ensures View() == old(View()).Evict(now)
    {
      EvictLaws(View(), now);
      DropExpired(now);
      DropOldest();
    }

    /** One pass over the map while entries are being deleted from it. */
    method DropExpired(now: int)
      requires Unique(map')
      modifies this`map'
      ensures map' == Live(old(map'), ttlMs, now) && Unique(map')
    {
      hide Unique, Live, Delete;
      ghost var before := map';
      ghost var done := 0;
      var i := 0;
      LiveLaws(before, ttlMs, now);
      assert before[..0] == [] && Live(before[..0], ttlMs, now) == [] by { LiveNothing<T>(ttlMs, now); }
      while i < |map'|
        invariant done <= |before| && i == |Live(before[..done], ttlMs, now)|
        invariant map' == Live(before[..done], ttlMs, now) + before[done..] && Unique(map')
        decreases |before| - done
      {
        ExpiryStep(before, done, ttlMs, now);
        if ttlMs > 0 && map'[i].entry.expiresAt <= now {
          DeleteAt(map', i);
          map' := Delete(map', map'[i].key);
        } else {
          i := i + 1;
        }
        done := done + 1;
      }
      assert before[..done] == before;
    }

    method DropOldest()
      requires Unique(map')
      modifies this`map'
      ensures map' == Newest(old(map'), maxEntries)
    {
      hide Unique;
      ghost var live := map';
      while |map'| > maxEntries
        invariant |map'| <= |live| && map' == live[|live| - |map'|..] && Unique(map')
        invariant |live| > maxEntries ==> |map'| >= maxEntries
        invariant |live| <= maxEntries ==> map' == live
      {
        DeleteAt(map', 0);
        map' := Delete(map', map'[0].key);
      }
    }
  }
}
