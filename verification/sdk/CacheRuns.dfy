/** Theorems about whole sequences of cache operations. */
module CacheRuns {
  import opened Results
  import opened LruCache

  /** The operations with the clock readings they take. */
  datatype Op<T> =
    | GetOp(key: string, now: int)
    | SetOp(key: string, value: T, ttl: int, now: int, evictNow: int)
    | DeleteOp(key: string)
    | ClearOp

  function Apply<T>(c: Cache<T>, op: Op<T>): Cache<T> {
    match op
    case GetOp(key, now) => c.Get(key, now).0
    case SetOp(key, value, ttl, now, evictNow) => c.Set(key, value, ttl, now, evictNow)
    case DeleteOp(key) => c.Remove(key).0
    case ClearOp => c.Clear()
  }

  function Run<T>(c: Cache<T>, ops: seq<Op<T>>): Cache<T> {
    if ops == [] then c else Apply(Run(c, ops[..|ops| - 1]), ops[|ops| - 1])
  }

  predicate Sound<T>(c: Cache<T>) {
    1 <= c.maxEntries && |c.slots| <= c.maxEntries && Unique(c.slots)
  }

  predicate Empty<T>(c: Cache<T>) {
    1 <= c.maxEntries && c.slots == [] && c.hits == 0 && c.misses == 0
  }

  lemma AppendLaws<T>(m: seq<Slot<T>>, s: Slot<T>)
    requires Unique(m) && !Has(m, s.key)
    ensures Unique(m + [s])
    ensures forall x :: x in m + [s] ==> x in m || x == s
  {
  }

  lemma EmptyLaws<T>(c: Cache<T>)
    requires Empty(c)
    ensures Sound(c) && Faithful(c, [])
  {
  }

  lemma NothingUnique<T>()
    ensures Unique<T>([])
  {
  }

  lemma IndexUnique<T>(m: seq<Slot<T>>, i: nat)
    requires Unique(m) && i < |m|
    ensures Index(m, m[i].key) == i
  {
  }

  lemma ApplySound<T>(c: Cache<T>, op: Op<T>)
    requires Sound(c)
    ensures var c' := Apply(c, op);
            Sound(c') && c'.maxEntries == c.maxEntries && c'.ttlMs == c.ttlMs
  {
    hide Unique, Delete, Live, Newest, Index;
    match op
    case GetOp(key, now) =>
      DeleteLaws(c.slots, key);
      var i := Index(c.slots, key);
      if i < |c.slots| {
        AppendLaws(Delete(c.slots, key), c.slots[i]);
      }
    case SetOp(key, value, ttl, now, evictNow) =>
      DeleteLaws(c.slots, key);
      AppendLaws(Delete(c.slots, key), Slot(key, Entry(value, now + ttl)));
      EvictLaws(c.(slots := Delete(c.slots, key) + [Slot(key, Entry(value, now + ttl))]), evictNow);
    case DeleteOp(key) => DeleteLaws(c.slots, key);
    case ClearOp => NothingUnique<T>();
  }

  /** The size never exceeds the capacity and no key appears twice, after any operations. */
  lemma {:induction false} RunSound<T>(c: Cache<T>, ops: seq<Op<T>>)
    requires Sound(c)
    ensures var c' := Run(c, ops); Sound(c') && c'.maxEntries == c.maxEntries && c'.ttlMs == c.ttlMs
  {
    if ops != [] {
      RunSound(c, ops[..|ops| - 1]);
      ApplySound(Run(c, ops[..|ops| - 1]), ops[|ops| - 1]);
    }
  }

  // ----- Agreement with a plain map -----

  /** What a plain map would hold for the key: its last `set` not followed by a `delete` or `clear`. */
  function Last<T>(ops: seq<Op<T>>, key: string): Option<Entry<T>> {
    if ops == [] then None
    else
      match ops[|ops| - 1]
      case GetOp(_, _) => Last(ops[..|ops| - 1], key)
      case SetOp(k, value, ttl, now, _) =>
        if k == key then Some(Entry(value, now + ttl)) else Last(ops[..|ops| - 1], key)
      case DeleteOp(k) => if k == key then None else Last(ops[..|ops| - 1], key)
      case ClearOp => None
  }

  function Gets<T>(ops: seq<Op<T>>): nat {
    if ops == [] then 0 else Gets(ops[..|ops| - 1]) + (if ops[|ops| - 1].GetOp? then 1 else 0)
  }

  /** Every entry held is the one a plain map holds. */
  ghost predicate Faithful<T>(c: Cache<T>, ops: seq<Op<T>>) {
    forall s :: s in c.slots ==> Last(ops, s.key) == Some(s.entry)
  }

  lemma LastAfter<T>(ops: seq<Op<T>>, op: Op<T>, key: string)
    ensures Last(ops + [op], key) ==
      match op
      case GetOp(_, _) => Last(ops, key)
      case SetOp(k, value, ttl, now, _) => if k == key then Some(Entry(value, now + ttl)) else Last(ops, key)
      case DeleteOp(k) => if k == key then None else Last(ops, key)
      case ClearOp => None
  {
    var after := ops + [op];
    assert after[..|after| - 1] == ops && after[|after| - 1] == op;
  }

  /** What is left after an operation was there before, except the entry a `set` adds. */
  lemma ApplyContents<T>(c: Cache<T>, op: Op<T>, s: Slot<T>)
    requires Sound(c) && s in Apply(c, op).slots
    ensures (op.SetOp? && s == Slot(op.key, Entry(op.value, op.now + op.ttl)))
         || (s in c.slots && !op.ClearOp? && (op.GetOp? || s.key != op.key))
  {
    hide Unique, Delete, Live, Newest, Index;
    match op
    case GetOp(key, now) =>
      DeleteLaws(c.slots, key);
      var i := Index(c.slots, key);
      if i < |c.slots| {
        assert c.slots[i] in c.slots;
      }
    case SetOp(key, value, ttl, now, evictNow) =>
      var slot := Slot(key, Entry(value, now + ttl));
      DeleteLaws(c.slots, key);
      AppendLaws(Delete(c.slots, key), slot);
      EvictLaws(c.(slots := Delete(c.slots, key) + [slot]), evictNow);
    case DeleteOp(key) => DeleteLaws(c.slots, key);
    case ClearOp =>
  }

  lemma ApplyFaithful<T>(c: Cache<T>, ops: seq<Op<T>>, op: Op<T>)
    requires Sound(c) && Faithful(c, ops)
    ensures Faithful(Apply(c, op), ops + [op])
  {
    hide Apply, Last, Sound;
    forall s | s in Apply(c, op).slots ensures Last(ops + [op], s.key) == Some(s.entry) {
      ApplyContents(c, op, s);
      LastAfter(ops, op, s.key);
    }
  }

  /** A `get` that answers counts one hit, one that does not counts one miss; nothing else counts. */
  lemma ApplyCounts<T>(c: Cache<T>, op: Op<T>)
    ensures var c' := Apply(c, op); var hit := op.GetOp? && c.Get(op.key, op.now).1.Some?;
            && c'.hits == c.hits + (if hit then 1 else 0)
            && c'.misses == c.misses + (if op.GetOp? && !hit then 1 else 0)
  {
  }

  /** From an empty cache: the entries held are those of a plain map, and every `get` was counted
      once, as a hit or a miss. */
  lemma {:induction false} AgreesWithPlainMap<T>(c: Cache<T>, ops: seq<Op<T>>)
    requires Empty(c)
    ensures Faithful(Run(c, ops), ops)
    ensures Run(c, ops).hits + Run(c, ops).misses == Gets(ops)
  {
    hide Faithful, Sound, Apply, Last;
    EmptyLaws(c);
    if ops != [] {
      var init, op := ops[..|ops| - 1], ops[|ops| - 1];
      AgreesWithPlainMap(c, init);
      RunSound(c, init);
      ApplyFaithful(Run(c, init), init, op);
      assert init + [op] == ops;
      ApplyCounts(Run(c, init), op);
    }
  }

  /** Whatever was done before, a `get` returns nothing or the value of the last `set` still in
      force, and never an expired one when the cache has a lifetime. */
  lemma GetIsFresh<T>(c: Cache<T>, ops: seq<Op<T>>, key: string, now: int)
    requires Empty(c)
    ensures var answer := Run(c, ops).Get(key, now).1;
            answer.Some? ==>
              var last := Last(ops, key);
              && last.Some? && last.value.value == answer.value
              && (c.ttlMs > 0 ==> now < last.value.expiresAt)
  {
    AgreesWithPlainMap(c, ops);
    RunSound(c, ops);
    var c1 := Run(c, ops);
    var i := Index(c1.slots, key);
    if i < |c1.slots| {
      assert c1.slots[i] in c1.slots;
    }
  }

  // ----- The working-set guarantee -----

  /** The key an operation uses: one that is set, or one that is hit. */
  function UsedBy<T>(c: Cache<T>, op: Op<T>): set<string> {
    match op
    case GetOp(key, now) => if c.Get(key, now).1.Some? then {key} else {}
    case SetOp(key, _, _, _, _) => {key}
    case _ => {}
  }

  function Used<T>(c: Cache<T>, ops: seq<Op<T>>): set<string> {
    if ops == [] then {}
    else Used(c, ops[..|ops| - 1]) + UsedBy(Run(c, ops[..|ops| - 1]), ops[|ops| - 1])
  }

  /** No operation concerns `key`, and its entry stays unexpired at every clock reading. */
  predicate Undisturbed<T>(ops: seq<Op<T>>, key: string, ttlMs: int, entry: Entry<T>) {
    forall i :: 0 <= i < |ops| ==>
      match ops[i]
      case GetOp(k, _) => k != key
      case SetOp(k, _, _, _, evictNow) => k != key && (ttlMs <= 0 || evictNow < entry.expiresAt)
      case DeleteOp(k) => k != key
      case ClearOp => false
  }

  /** `slot` is in the cache, and everything more recent than it is in `used`. */
  ghost predicate Recent<T>(m: seq<Slot<T>>, slot: Slot<T>, used: set<string>) {
    exists p :: 0 <= p < |m| && m[p] == slot && forall j :: p < j < |m| ==> m[j].key in used
  }

  lemma DeleteKeepsRecent<T>(m: seq<Slot<T>>, slot: Slot<T>, used: set<string>, key: string)
    requires Recent(m, slot, used) && key != slot.key
    ensures Recent(Delete(m, key), slot, used)
  {
    hide Index;
    var p :| 0 <= p < |m| && m[p] == slot && forall j :: p < j < |m| ==> m[j].key in used;
    var i := Index(m, key);
    var rest := Delete(m, key);
    var q := if i < p then p - 1 else p;
    if i < |m| {
      assert rest[q] == slot;
      forall j | q < j < |rest| ensures rest[j].key in used {
        assert rest[j] == m[if j < i then j else j + 1];
      }
    }
  }

  lemma AppendKeepsRecent<T>(m: seq<Slot<T>>, slot: Slot<T>, used: set<string>, last: Slot<T>)
    requires Recent(m, slot, used)
    ensures Recent(m + [last], slot, used + {last.key})
  {
    var p :| 0 <= p < |m| && m[p] == slot && forall j :: p < j < |m| ==> m[j].key in used;
    assert (m + [last])[p] == slot;
  }

  lemma {:induction false} LiveKeepsRecent<T>(m: seq<Slot<T>>, slot: Slot<T>, used: set<string>, ttlMs: int, now: int)
    requires Recent(m, slot, used) && (ttlMs <= 0 || now < slot.entry.expiresAt)
    ensures Recent(Live(m, ttlMs, now), slot, used)
  {
    var p :| 0 <= p < |m| && m[p] == slot && forall j :: p < j < |m| ==> m[j].key in used;
    var init, last := m[..|m| - 1], m[|m| - 1];
    if p == |m| - 1 {
      var rest := Live(init, ttlMs, now);
      assert (rest + [slot])[|rest|] == slot;
    } else {
      assert Recent(init, slot, used) by { assert init[p] == slot; }
      LiveKeepsRecent(init, slot, used, ttlMs, now);
      var rest := Live(init, ttlMs, now);
      if (ttlMs <= 0 || now < last.entry.expiresAt) {
        AppendKeepsRecent(rest, slot, used, last);
        assert used + {last.key} == used;
      }
    }
  }

  /** Distinct keys drawn from a set are no more than the set. */
  lemma {:induction false} KeysCounted<T>(m: seq<Slot<T>>, used: set<string>)
    requires Unique(m) && forall j :: 0 <= j < |m| ==> m[j].key in used
    ensures |m| <= |used|
  {
    if m != [] {
      var init, last := m[..|m| - 1], m[|m| - 1];
      KeysCounted(init, used - {last.key});
    }
  }

  lemma NewestKeepsRecent<T>(m: seq<Slot<T>>, slot: Slot<T>, used: set<string>, count: nat)
    requires Unique(m) && Recent(m, slot, used) && |used| < count
    ensures Recent(Newest(m, count), slot, used)
  {
    var p :| 0 <= p < |m| && m[p] == slot && forall j :: p < j < |m| ==> m[j].key in used;
    KeysCounted(m[p + 1..], used);
    if |m| > count {
      var cut := |m| - count;
      assert m[cut..][p - cut] == slot;
    }
  }

  lemma StepKeepsRecent<T>(c: Cache<T>, op: Op<T>, slot: Slot<T>, used: set<string>)
    requires Sound(c) && Recent(c.slots, slot, used) && Undisturbed([op], slot.key, c.ttlMs, slot.entry)
    requires |used + UsedBy(c, op)| < c.maxEntries
    ensures Recent(Apply(c, op).slots, slot, used + UsedBy(c, op))
  {
    hide Recent, Unique, Delete, Live, Newest, Index;
    assert op == [op][0];
    match op
    case GetOp(key, now) =>
      var i := Index(c.slots, key);
      if i < |c.slots| {
        DeleteKeepsRecent(c.slots, slot, used, key);
        AppendKeepsRecent(Delete(c.slots, key), slot, used, c.slots[i]);
      }
      assert used + {} == used;
    case SetOp(key, value, ttl, now, evictNow) =>
      var newest := Slot(key, Entry(value, now + ttl));
      var m := Delete(c.slots, key) + [newest];
      DeleteKeepsRecent(c.slots, slot, used, key);
      AppendKeepsRecent(Delete(c.slots, key), slot, used, newest);
      DeleteLaws(c.slots, key);
      AppendLaws(Delete(c.slots, key), newest);
      LiveKeepsRecent(m, slot, used + {key}, c.ttlMs, evictNow);
      LiveLaws(m, c.ttlMs, evictNow);
      NewestKeepsRecent(Live(m, c.ttlMs, evictNow), slot, used + {key}, c.maxEntries);
    case DeleteOp(key) =>
      DeleteKeepsRecent(c.slots, slot, used, key);
      assert used + {} == used;
  }

  lemma SubsetSize(a: set<string>, b: set<string>)
    requires a <= b
    ensures |a| <= |b|
  {
    assert b == a + (b - a);
  }

  lemma UndisturbedParts<T>(ops: seq<Op<T>>, key: string, ttlMs: int, entry: Entry<T>)
    requires ops != [] && Undisturbed(ops, key, ttlMs, entry)
    ensures Undisturbed(ops[..|ops| - 1], key, ttlMs, entry) && Undisturbed([ops[|ops| - 1]], key, ttlMs, entry)
  {
  }

  lemma {:induction false} StaysRecent<T>(c: Cache<T>, slot: Slot<T>, ops: seq<Op<T>>)
    requires Sound(c) && Recent(c.slots, slot, {}) && Undisturbed(ops, slot.key, c.ttlMs, slot.entry)
    requires |Used(c, ops)| < c.maxEntries
    ensures Recent(Run(c, ops).slots, slot, Used(c, ops))
  {
    hide Recent, Undisturbed;
    if ops != [] {
      var init, op := ops[..|ops| - 1], ops[|ops| - 1];
      UndisturbedParts(ops, slot.key, c.ttlMs, slot.entry);
      SubsetSize(Used(c, init), Used(c, ops));
      StaysRecent(c, slot, init);
      RunSound(c, init);
      StepKeepsRecent(Run(c, init), op, slot, Used(c, init));
    }
  }

  /** The operation set the key, with a lifetime that outlasts its own eviction, or hit it; `slot` is
      the entry it leaves at the recent end. */
  ghost predicate Touches<T>(c: Cache<T>, op: Op<T>, slot: Slot<T>) {
    match op
    case SetOp(key, value, ttl, now, evictNow) =>
      slot == Slot(key, Entry(value, now + ttl)) && (c.ttlMs <= 0 || evictNow < slot.entry.expiresAt)
    case GetOp(key, now) => slot in c.slots && slot.key == key && (c.ttlMs <= 0 || now < slot.entry.expiresAt)
    case _ => false
  }

  lemma TouchedIsRecent<T>(c: Cache<T>, op: Op<T>, slot: Slot<T>)
    requires Sound(c) && Touches(c, op, slot)
    ensures Recent(Apply(c, op).slots, slot, {})
  {
    hide Unique, Delete, Live, Newest;
    DeleteLaws(c.slots, slot.key);
    var rest := Delete(c.slots, slot.key);
    var m := rest + [slot];
    assert Recent(m, slot, {}) by { assert m[|rest|] == slot; }
    match op
    case SetOp(key, value, ttl, now, evictNow) =>
      AppendLaws(rest, slot);
      LiveKeepsRecent(m, slot, {}, c.ttlMs, evictNow);
      LiveLaws(m, c.ttlMs, evictNow);
      NewestKeepsRecent(Live(m, c.ttlMs, evictNow), slot, {}, c.maxEntries);
    case GetOp(key, now) =>
      var i :| 0 <= i < |c.slots| && c.slots[i] == slot;
      IndexUnique(c.slots, i);
  }

  /** Working-set guarantee: after a key was set or hit, and as long as fewer than `maxEntries`
      other keys have been set or hit since, the key was not deleted or cleared and its entry has not
      expired, a `get` finds its value. */
  lemma WorkingSetGuarantee<T>(c: Cache<T>, touch: Op<T>, ops: seq<Op<T>>, slot: Slot<T>, now: int)
    requires Sound(c) && Touches(c, touch, slot)
    requires Undisturbed(ops, slot.key, c.ttlMs, slot.entry) && (c.ttlMs <= 0 || now < slot.entry.expiresAt)
    requires |Used(Apply(c, touch), ops)| < c.maxEntries
    ensures Run(Apply(c, touch), ops).Get(slot.key, now).1 == Some(slot.entry.value)
  {
    hide Undisturbed, Touches, Live, Newest;
    var c1 := Apply(c, touch);
    ApplySound(c, touch);
    TouchedIsRecent(c, touch, slot);
    StaysRecent(c1, slot, ops);
    RunSound(c1, ops);
    RecentHits(Run(c1, ops), slot, Used(c1, ops), now);
  }

  lemma RecentHits<T>(c: Cache<T>, slot: Slot<T>, used: set<string>, now: int)
    requires Sound(c) && Recent(c.slots, slot, used) && (c.ttlMs <= 0 || now < slot.entry.expiresAt)
    ensures c.Get(slot.key, now).1 == Some(slot.entry.value)
  {
    var p :| 0 <= p < |c.slots| && c.slots[p] == slot && forall j :: p < j < |c.slots| ==> c.slots[j].key in used;
    assert Index(c.slots, slot.key) == p;
  }

  // ----- The guarantee is exact -----

  /** Only sets and gets of other keys. */
  predicate OthersOnly<T>(ops: seq<Op<T>>, key: string) {
    forall i :: 0 <= i < |ops| ==> (ops[i].GetOp? || ops[i].SetOp?) && ops[i].key != key
  }

  /** If the key is held at all, everything used is held, and is more recent. */
  ghost predicate Behind<T>(m: seq<Slot<T>>, key: string, used: set<string>) {
    forall p :: 0 <= p < |m| && m[p].key == key ==>
      forall u :: u in used ==> exists j :: p < j < |m| && m[j].key == u
  }

  lemma MoveKeepsBehind<T>(m: seq<Slot<T>>, key: string, used: set<string>, last: Slot<T>)
    requires Unique(m) && Behind(m, key, used) && last.key != key
    ensures Behind(Delete(m, last.key) + [last], key, used + {last.key})
  {
    var i := Index(m, last.key);
    var rest := Delete(m, last.key);
    var m' := rest + [last];
    forall p, u | 0 <= p < |m'| && m'[p].key == key && u in used + {last.key}
      ensures exists j :: p < j < |m'| && m'[j].key == u
    {
      if u == last.key {
        assert m'[|rest|].key == u;
      } else {
        var q := if p < i then p else p + 1;
        assert m[q].key == key;
        var j :| q < j < |m| && m[j].key == u;
        var k := if j < i then j else j - 1;
        assert m'[if i < |m| then k else j].key == u;
      }
    }
  }

  lemma NewestKeepsBehind<T>(m: seq<Slot<T>>, key: string, used: set<string>, count: nat)
    requires Behind(m, key, used)
    ensures Behind(Newest(m, count), key, used)
  {
    if |m| > count {
      var cut := |m| - count;
      var m' := Newest(m, count);
      forall p, u | 0 <= p < |m'| && m'[p].key == key && u in used
        ensures exists j :: p < j < |m'| && m'[j].key == u
      {
        assert m[p + cut].key == key;
        var j :| p + cut < j < |m| && m[j].key == u;
        assert m'[j - cut].key == u;
      }
    }
  }

  lemma {:induction false} NothingExpires<T>(m: seq<Slot<T>>, now: int)
    ensures Live(m, 0, now) == m
  {
    if m != [] {
      NothingExpires(m[..|m| - 1], now);
    }
  }

  lemma StepKeepsBehind<T>(c: Cache<T>, op: Op<T>, key: string, used: set<string>)
    requires Sound(c) && c.ttlMs == 0 && Behind(c.slots, key, used) && (op.GetOp? || op.SetOp?) && op.key != key
    ensures Behind(Apply(c, op).slots, key, used + UsedBy(c, op))
  {
    hide Behind, Live, Newest;
    match op
    case GetOp(k, now) =>
      var i := Index(c.slots, k);
      if i < |c.slots| {
        MoveKeepsBehind(c.slots, key, used, c.slots[i]);
      }
      assert used + {} == used;
    case SetOp(k, value, ttl, now, evictNow) =>
      var newest := Slot(k, Entry(value, now + ttl));
      MoveKeepsBehind(c.slots, key, used, newest);
      NothingExpires(Delete(c.slots, k) + [newest], evictNow);
      NewestKeepsBehind(Delete(c.slots, k) + [newest], key, used + {k}, c.maxEntries);
  }

  lemma {:induction false} StaysBehind<T>(c: Cache<T>, key: string, ops: seq<Op<T>>)
    requires Sound(c) && c.ttlMs == 0 && OthersOnly(ops, key)
    ensures Behind(Run(c, ops).slots, key, Used(c, ops))
  {
    if ops != [] {
      var init, op := ops[..|ops| - 1], ops[|ops| - 1];
      StaysBehind(c, key, init);
      RunSound(c, init);
      StepKeepsBehind(Run(c, init), op, key, Used(c, init));
    }
  }

  lemma {:induction false} CoveredBySlots<T>(m: seq<Slot<T>>, used: set<string>)
    requires forall u :: u in used ==> exists j :: 0 <= j < |m| && m[j].key == u
    ensures |used| <= |m|
  {
    if m != [] {
      var init, last := m[..|m| - 1], m[|m| - 1];
      forall u | u in used - {last.key} ensures exists j :: 0 <= j < |init| && init[j].key == u {
        var j :| 0 <= j < |m| && m[j].key == u;
        assert init[j].key == u;
      }
      CoveredBySlots(init, used - {last.key});
    } else {
      assert used == {};
    }
  }

  /** Without lifetimes and deletions the guarantee is exact: after a key was set or hit, a `get`
      finds it if and only if fewer than `maxEntries` other keys have been set or hit since. */
  lemma WorkingSetExact<T>(c: Cache<T>, touch: Op<T>, ops: seq<Op<T>>, slot: Slot<T>, now: int)
    requires Sound(c) && c.ttlMs == 0 && Touches(c, touch, slot) && OthersOnly(ops, slot.key)
    ensures Run(Apply(c, touch), ops).Get(slot.key, now).1.Some? <==> |Used(Apply(c, touch), ops)| < c.maxEntries
  {
    hide Touches, Live, Newest, Behind;
    var c1 := Apply(c, touch);
    ApplySound(c, touch);
    RunSound(c1, ops);
    if |Used(c1, ops)| < c.maxEntries {
      WorkingSetGuarantee(c, touch, ops, slot, now);
    } else {
      StaysBehind(c1, slot.key, ops);
      TooManyUsed(Run(c1, ops), slot.key, Used(c1, ops));
    }
  }

  lemma TooManyUsed<T>(c: Cache<T>, key: string, used: set<string>)
    requires Sound(c) && Behind(c.slots, key, used) && c.maxEntries <= |used|
    ensures !Has(c.slots, key)
  {
    var m := c.slots;
    var p := Index(m, key);
    if p < |m| {
      var rest := m[p + 1..];
      forall u | u in used ensures exists j :: 0 <= j < |rest| && rest[j].key == u {
        var j :| p < j < |m| && m[j].key == u;
        assert rest[j - p - 1].key == u;
      }
      CoveredBySlots(rest, used);
      assert false;
    }
  }
}
