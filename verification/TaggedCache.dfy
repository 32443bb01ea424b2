/**
 A cache of shared objects. An entry keeps its object alive by a strong pointer, and
 after the strong pointer is gone still finds the object by a weak one, as long as
 somebody else keeps it alive.

 Objects are identified by name: a name stands for one object and its reference
 count, and is not used again after the object is gone. The handles that clients hold
 are part of the state, since the reference counts the cache reads depend on them.

 Line numbers are those of src/ripple/basics/TaggedCache.h.
 */
module TaggedCache {
  import opened Bits
  import opened Options

  datatype Entry<Obj> = Entry(ptr: Option<Obj>, weak: Option<Obj>, lastAccess: int)

  type Cache<Key, Obj> = map<Key, Entry<Obj>>

  // ---- reference counts ----

  /** The entries that hold o by a strong pointer. */
  function Holders<Key, Obj(==)>(cache: Cache<Key, Obj>, o: Obj): set<Key> {
    set k | k in cache && cache[k].ptr == Some(o)
  }

  predicate Alive<Key, Obj(==)>(cache: Cache<Key, Obj>, handles: multiset<Obj>, o: Obj) {
    o in handles || Holders(cache, o) != {}
  }

  predicate Expired<Key, Obj(==)>(cache: Cache<Key, Obj>, handles: multiset<Obj>, e: Entry<Obj>) {
    e.weak.None? || !Alive(cache, handles, e.weak.value)
  }

  function Strong<Key, Obj>(cache: Cache<Key, Obj>): set<Key> {
    set k | k in cache && cache[k].ptr.Some?
  }

  // ---- what every operation keeps ----

  /** A strong pointer and the weak one beside it are to the same object. */
  predicate Paired<Key(!new), Obj(==)>(cache: Cache<Key, Obj>) {
    forall k :: k in cache && cache[k].ptr.Some? ==> cache[k].weak == cache[k].ptr
  }

  /** An object handed out under a key and still alive is the one its entry finds. */
  ghost predicate Canonical<Key(!new), Obj(!new)>(cache: Cache<Key, Obj>, handles: multiset<Obj>, handed: set<(Key, Obj)>) {
    forall k, o :: (k, o) in handed && Alive(cache, handles, o) ==> k in cache && cache[k].weak == Some(o)
  }

  /** Every object in sight has been created. */
  ghost predicate Known<Key(!new), Obj(!new)>(cache: Cache<Key, Obj>, handles: multiset<Obj>, handed: set<(Key, Obj)>, known: set<Obj>) {
    && (forall o :: o in handles ==> o in known)
    && (forall k, o :: (k, o) in handed ==> o in known)
    && (forall k :: k in cache && cache[k].ptr.Some? ==> cache[k].ptr.value in known)
  }

  // ---- time ----

  const SECOND: int := 1_000_000_000

  /** A 64-bit word read as a signed number. */
  function AsSigned(x: int): int {
    var w := Wrap64(x);
    if w < W64 / 2 then w else w - W64
  }

  /** Entries last used at this time or before are to go: lines 119-130, in nanoseconds. */
  function WhenExpire(now: int, age: int, target: int, size: nat): int
    requires target >= 0 || size > 0
  {
    if target == 0 || size <= target then now - age
    else
      var w := AsSigned(now - Wrap64(age * target) / size);
      if w > now - SECOND then now - SECOND else w
  }

  /** No sum or product of the threshold overflows. */
  predicate Representable(now: int, age: int, target: int) {
    age >= 0 && age * target < W64 / 2 && 0 - W64 / 2 <= now - age && now < W64 / 2
  }

  /** The threshold lies between the target age and one second ago, whichever way round they are. */
  lemma ExpireWindow(now: int, age: nat, target: nat, size: nat)
    requires age * target < W64 / 2 && 0 - W64 / 2 <= now - age && now < W64 / 2
    ensures var w := WhenExpire(now, age, target, size);
            now - (if age > SECOND then age else SECOND) <= w <= now - (if age < SECOND then age else SECOND)
  {
    if target != 0 && size > target {
      assert age * target >= 0;
      ModUnique(age * target, W64, 0, age * target);
      var q := age * target / size;
      QuotientAtMost(age, target, size);
      AsSignedIs(now - q);
    }
  }

  /**
   Above the target size, without overflow: the age of the threshold is the target age
   times the target over the number of entries, rounded down, and at least one second.
   */
  lemma ThresholdIs(now: int, age: nat, target: nat, size: nat)
    requires 0 < target < size && age * target < W64 / 2 && 0 - W64 / 2 <= now - age && now < W64 / 2
    ensures var w := WhenExpire(now, age, target, size);
            && w <= now - 1_000_000_000
            && ((now - w) * size <= age * target < (now - w + 1) * size
                || (w == now - 1_000_000_000 && age * target < 1_000_000_000 * size))
  {
    hide WhenExpire;
    var product, q := AgeQuotient(now, age, target, size);
    QuotientBounds(product, q, size);
  }

  lemma AgeQuotient(now: int, age: nat, target: nat, size: nat) returns (product: nat, q: nat)
    requires 0 < target < size && age * target < W64 / 2 && 0 - W64 / 2 <= now - age && now < W64 / 2
    ensures product == age * target && q == product / size
    ensures WhenExpire(now, age, target, size) == if q < SECOND then now - SECOND else now - q
  {
    hide AsSigned;
    assert age * target >= 0;
    product := age * target;
    ModUnique(product, W64, 0, product);
    q := product / size;
    QuotientAtMost(age, target, size);
    AsSignedIs(now - q);
  }

  lemma QuotientBounds(product: nat, q: nat, size: nat)
    requires size >= 1 && q == product / size
    ensures q * size <= product < (q + 1) * size && (q < SECOND ==> product < SECOND * size)
  {
    Distribute(q, 1, size);
    if q < SECOND {
      MulStrict(q, SECOND, size);
    }
  }

  lemma ThresholdCases(now: int, age: int, target: int, size: nat)
    requires target >= 0 || size > 0
    ensures var w := WhenExpire(now, age, target, size);
            && (target == 0 || size <= target ==> w == now - age)
            && (0 < target < size && Representable(now, age, target) ==>
                  && w <= now - 1_000_000_000
                  && ((now - w) * size <= age * target < (now - w + 1) * size
                      || (w == now - 1_000_000_000 && age * target < 1_000_000_000 * size)))
  {
    if 0 < target < size && Representable(now, age, target) {
      ThresholdIs(now, age, target, size);
    }
  }

  /** The same in general: the product and the difference wrap, and the quotient is one of unsigned words. */
  lemma WrappedThreshold(now: int, age: int, target: int, size: nat) returns (product: nat, q: nat, v: int)
    requires target != 0 && target < size && size > 0
    ensures product < W64 && (product - age * target) % W64 == 0
    ensures q * size <= product < (q + 1) * size
    ensures 0 - W64 / 2 <= v < W64 / 2 && (v - (now - q)) % W64 == 0
    ensures WhenExpire(now, age, target, size) == if v > now - 1_000_000_000 then now - 1_000_000_000 else v
  {
    product := Wrap64(age * target);
    WrapDiffers(age * target);
    q := product / size;
    Distribute(q, 1, size);
    v := AsSigned(now - q);
    var w := Wrap64(now - q);
    WrapDiffers(now - q);
    if v != w {
      var k := (w - (now - q)) / W64;
      ModUnique(v - (now - q), W64, k - 1, 0);
    }
  }

  lemma WrapDiffers(x: int)
    ensures (Wrap64(x) - x) % W64 == 0
  {
    ModUnique(Wrap64(x) - x, W64, 0 - x / W64, 0);
  }

  lemma QuotientAtMost(age: nat, target: nat, size: nat)
    requires target < size
    ensures 0 <= age * target / size <= age
  {
    MulStrict(target, size, age);
    assert age * target < size * (age + 1) by {
      Distribute(age, 1, size);
    }
    assert age * target >= 0;
    QuotientBelow(age * target, size, age + 1);
  }

  lemma AsSignedIs(x: int)
    requires 0 - W64 / 2 <= x < W64 / 2
    ensures AsSigned(x) == x
  {
    ModUnique(x, W64, if x < 0 then -1 else 0, if x < 0 then x + W64 else x);
  }

  // ---- steps ----

  /** The object that an entry finds: its own, while anybody keeps it alive. */
  function Found<Key, Obj(==)>(cache: Cache<Key, Obj>, handles: multiset<Obj>, key: Key): Option<Obj> {
    if key in cache && !Expired(cache, handles, cache[key]) then cache[key].weak else None
  }

  lemma CachedIsFound<Key(!new), Obj>(cache: Cache<Key, Obj>, handles: multiset<Obj>, key: Key)
    requires Paired(cache) && key in cache && cache[key].ptr.Some?
    ensures Found(cache, handles, key) == cache[key].ptr == cache[key].weak
  {
    assert key in Holders(cache, cache[key].ptr.value);
  }

  lemma AliveIsKnown<Key(!new), Obj(!new)>(cache: Cache<Key, Obj>, handles: multiset<Obj>, handed: set<(Key, Obj)>,
                                           known: set<Obj>, o: Obj)
    requires Known(cache, handles, handed, known) && Alive(cache, handles, o)
    ensures o in known
  {
    if o !in handles {
      var k :| k in Holders(cache, o);
    }
  }

  /** Nothing came to life, and no entry of a living object was lost or redirected. */
  lemma CanonicalKept<Key(!new), Obj(!new)>(cache: Cache<Key, Obj>, handles: multiset<Obj>, handed: set<(Key, Obj)>,
                                            cache': Cache<Key, Obj>, handles': multiset<Obj>)
    requires Canonical(cache, handles, handed)
    requires forall o :: Alive(cache', handles', o) ==> Alive(cache, handles, o)
    requires forall k :: k in cache && cache[k].weak.Some? && Alive(cache', handles', cache[k].weak.value)
               ==> k in cache' && cache'[k].weak == cache[k].weak
    ensures Canonical(cache', handles', handed)
  {
    hide Alive;
  }

  ghost function WithoutKey<Key, Obj>(handed: set<(Key, Obj)>, key: Key): set<(Key, Obj)> {
    set p | p in handed && p.0 != key
  }

  /** What may be stored under a key: living objects only, and none that loses a living one. */
  ghost predicate Storable<Key(!new), Obj(!new)>(cache: Cache<Key, Obj>, handles: multiset<Obj>, handed: set<(Key, Obj)>,
                                                 key: Key, e: Entry<Obj>) {
    && (e.ptr.Some? ==> e.ptr == e.weak && Alive(cache, handles, e.ptr.value))
    && (forall o :: (key, o) in handed && Alive(cache, handles, o) ==> e.weak == Some(o))
  }

  /** Storing an entry, while clients may take or drop handles of living objects. */
  lemma Stored<Key(!new), Obj(!new)>(cache: Cache<Key, Obj>, handles: multiset<Obj>, handed: set<(Key, Obj)>,
                                     key: Key, e: Entry<Obj>, handles': multiset<Obj>)
    requires Paired(cache) && Canonical(cache, handles, handed) && Storable(cache, handles, handed, key, e)
    requires forall o :: o in handles' ==> Alive(cache, handles, o)
    ensures Paired(cache[key := e]) && Canonical(cache[key := e], handles', handed)
    ensures e.weak.Some? ==> Canonical(cache[key := e], handles', handed + {(key, e.weak.value)})
  {
    var cache' := cache[key := e];
    forall o | Alive(cache', handles', o) ensures Alive(cache, handles, o) {
      if o !in handles' {
        AliveAfterStore(cache, handles', key, e, o);
        if e.ptr != Some(o) {
          AliveByHolder(cache, handles, handles', o);
        }
      }
    }
    hide Alive;
    assert Canonical(cache', handles', handed);
  }

  lemma AliveByHolder<Key, Obj>(cache: Cache<Key, Obj>, handles: multiset<Obj>, handles': multiset<Obj>, o: Obj)
    requires o !in handles' && Alive(cache, handles', o)
    ensures Alive(cache, handles, o)
  {
  }

  lemma Erased<Key(!new), Obj(!new)>(cache: Cache<Key, Obj>, handles: multiset<Obj>, handed: set<(Key, Obj)>, key: Key)
    requires Paired(cache) && Canonical(cache, handles, handed)
    requires forall o :: (key, o) in handed ==> !Alive(cache - {key}, handles, o)
    ensures Paired(cache - {key}) && Canonical(cache - {key}, handles, handed)
  {
    AliveAfterErase(cache, handles, key);
    hide Alive;
    assert Canonical(cache - {key}, handles, handed);
  }

  lemma AliveAfterErase<Key, Obj>(cache: Cache<Key, Obj>, handles: multiset<Obj>, key: Key)
    ensures forall o :: Alive(cache - {key}, handles, o) ==> Alive(cache, handles, o)
  {
    forall o | Alive(cache - {key}, handles, o) ensures Alive(cache, handles, o) {
      if o !in handles {
        var k :| k in Holders(cache - {key}, o);
        assert k in Holders(cache, o);
      }
    }
  }

  /** An expired or missing entry has no living object that was handed out. */
  lemma NothingLost<Key(!new), Obj(!new)>(cache: Cache<Key, Obj>, handles: multiset<Obj>, handed: set<(Key, Obj)>, key: Key)
    requires Canonical(cache, handles, handed) && Found(cache, handles, key).None?
    ensures forall o :: (key, o) in handed ==> !Alive(cache, handles, o) && !Alive(cache - {key}, handles, o)
  {
    AliveAfterErase(cache, handles, key);
  }

  /** Storing an entry brings to life nothing but its own object. */
  lemma AliveAfterStore<Key, Obj>(cache: Cache<Key, Obj>, handles: multiset<Obj>, key: Key, e: Entry<Obj>, o: Obj)
    requires Alive(cache[key := e], handles, o)
    ensures Alive(cache, handles, o) || e.ptr == Some(o)
  {
    if o !in handles {
      var k :| k in Holders(cache[key := e], o);
      if k != key {
        assert k in Holders(cache, o);
      }
    }
  }

  lemma StrongAfterStore<Key, Obj>(cache: Cache<Key, Obj>, key: Key, e: Entry<Obj>)
    ensures |Strong(cache[key := e])|
         == |Strong(cache)| - (if key in cache && cache[key].ptr.Some? then 1 else 0) + (if e.ptr.Some? then 1 else 0)
  {
    var others := Strong(cache) - {key};
    assert Strong(cache[key := e]) == (if e.ptr.Some? then others + {key} else others);
  }

  lemma StrongAfterErase<Key, Obj>(cache: Cache<Key, Obj>, key: Key)
    ensures |Strong(cache - {key})| == |Strong(cache)| - (if key in cache && cache[key].ptr.Some? then 1 else 0)
  {
    assert Strong(cache - {key}) == Strong(cache) - {key};
  }

  lemma HandlesLive<Key, Obj>(cache: Cache<Key, Obj>, handles: multiset<Obj>)
    ensures forall o :: o in handles ==> Alive(cache, handles, o)
  {
  }

  lemma AliveHandles<Key, Obj>(cache: Cache<Key, Obj>, handles: multiset<Obj>, r: Obj)
    requires Alive(cache, handles, r)
    ensures forall o :: o in handles + multiset{r} ==> Alive(cache, handles, o)
  {
  }

  lemma KnownAfterStore<Key(!new), Obj(!new)>(cache: Cache<Key, Obj>, handles: multiset<Obj>, handed: set<(Key, Obj)>, known: set<Obj>,
                                              key: Key, e: Entry<Obj>, handles': multiset<Obj>, hand: bool)
    requires Known(cache, handles, handed, known) && forall o :: o in handles' ==> Alive(cache, handles, o)
    requires e.ptr.Some? ==> Alive(cache, handles, e.ptr.value)
    requires hand ==> e.weak.Some? && Alive(cache, handles, e.weak.value)
    ensures Known(cache[key := e], handles', if hand then handed + {(key, e.weak.value)} else handed, known)
  {
    hide Alive;
    forall o | Alive(cache, handles, o) ensures o in known {
      AliveIsKnown(cache, handles, handed, known, o);
    }
  }

  function Handle<Obj(==)>(data: Option<Obj>): multiset<Obj> {
    if data.Some? then multiset{data.value} else multiset{}
  }

  lemma SameHandle<Obj>(handles: multiset<Obj>, data: Option<Obj>)
    requires data.Some? ==> data.value in handles
    ensures handles - Handle(data) + Handle(data) == handles
  {
  }

  ghost function Pair<Key, Obj>(key: Key, data: Option<Obj>): set<(Key, Obj)> {
    if data.Some? then {(key, data.value)} else {}
  }

  /** The entries after a deletion. */
  function Deleted<Key(==), Obj(==)>(cache: Cache<Key, Obj>, handles: multiset<Obj>, key: Key, valid: bool): Cache<Key, Obj> {
    if key in cache && valid then
      var weaker := cache[key := cache[key].(ptr := None)];
      if Found(weaker, handles, key).Some? then weaker else cache - {key}
    else cache - {key}
  }

  /** A client or an entry holds o. */
  ghost predicate Held<Key(!new), Obj>(cache: Cache<Key, Obj>, handles: multiset<Obj>, o: Obj) {
    o in handles || exists k :: k in cache && cache[k].ptr == Some(o)
  }

  lemma HeldIsAlive<Key(!new), Obj>(cache: Cache<Key, Obj>, handles: multiset<Obj>, o: Obj)
    ensures Held(cache, handles, o) <==> Alive(cache, handles, o)
  {
    if k :| k in cache && cache[k].ptr == Some(o) {
      assert k in Holders(cache, o);
    }
    if k :| k in Holders(cache, o) {
      assert k in cache && cache[k].ptr == Some(o);
    }
  }

  /** A client holds o, or an entry other than that of key does. */
  ghost predicate Elsewhere<Key(!new), Obj>(cache: Cache<Key, Obj>, handles: multiset<Obj>, key: Key, o: Obj) {
    o in handles || exists k :: k in cache && k != key && cache[k].ptr == Some(o)
  }

  lemma DeletedIs<Key(!new), Obj>(cache: Cache<Key, Obj>, handles: multiset<Obj>, key: Key, valid: bool)
    ensures key !in cache ==> Deleted(cache, handles, key, valid) == cache
    ensures key in cache ==>
              (if valid && cache[key].weak.Some? && Elsewhere(cache, handles, key, cache[key].weak.value)
               then Deleted(cache, handles, key, valid) == cache[key := cache[key].(ptr := None)]
               else Deleted(cache, handles, key, valid) == cache - {key})
  {
    if key !in cache {
      assert cache - {key} == cache;
    } else if cache[key].weak.Some? {
      var o, weaker := cache[key].weak.value, cache[key := cache[key].(ptr := None)];
      if Holders(weaker, o) != {} {
        var k :| k in Holders(weaker, o);
        assert k in cache && k != key && cache[k].ptr == Some(o);
      }
      if k :| k in cache && k != key && cache[k].ptr == Some(o) {
        assert k in Holders(weaker, o);
      }
    }
  }

  /** The object of the entry, as long as a client or some entry holds it. */
  lemma FoundIs<Key(!new), Obj>(cache: Cache<Key, Obj>, handles: multiset<Obj>, key: Key)
    ensures Found(cache, handles, key)
         == if key in cache && cache[key].weak.Some? && Held(cache, handles, cache[key].weak.value) then cache[key].weak else None
  {
    if key in cache && cache[key].weak.Some? {
      HeldIsAlive(cache, handles, cache[key].weak.value);
    }
  }

  // ---- sweeping ----

  /** Exactly one strong pointer to o, counting those the sweep holds. */
  predicate Unique<Key, Obj(==)>(cache: Cache<Key, Obj>, handles: multiset<Obj>, swept: multiset<Obj>, o: Obj) {
    handles[o] + |Holders(cache, o)| + swept[o] == 1
  }

  /** The object of an entry that alone holds it was handed out under its key, if at all, and dies with it. */
  lemma LastHolder<Key(!new), Obj(!new)>(cache: Cache<Key, Obj>, handles: multiset<Obj>, handed: set<(Key, Obj)>, k: Key, swept: multiset<Obj>)
    requires Paired(cache) && Canonical(cache, handles, handed) && k in cache && cache[k].ptr.Some?
    requires Unique(cache, handles, swept, cache[k].ptr.value)
    ensures !Alive(cache - {k}, handles, cache[k].ptr.value)
    ensures forall o :: (k, o) in handed ==> !Alive(cache - {k}, handles, o)
  {
    var o := cache[k].ptr.value;
    assert k in Holders(cache, o);
    assert Holders(cache - {k}, o) == Holders(cache, o) - {k};
    assert |Holders(cache, o) - {k}| == |Holders(cache, o)| - 1;
    AliveAfterErase(cache, handles, k);
  }

  /** An entry kept by a sweep: its strong pointer is gone if the entry was stale. */
  predicate Kept<Obj(==)>(e: Entry<Obj>, e': Entry<Obj>, whenExpire: int) {
    e'.weak == e.weak && e'.lastAccess == e.lastAccess && e'.ptr == (if e.lastAccess <= whenExpire then None else e.ptr)
  }

  /** The object of k lives by this entry alone. */
  predicate OnlyHolder<Key, Obj(==)>(cache: Cache<Key, Obj>, handles: multiset<Obj>, k: Key)
    requires k in cache
  {
    cache[k].ptr.Some? && Unique(cache, handles, multiset{}, cache[k].ptr.value)
  }

  /**
   What a sweep does to the entries outside todo, whatever their order: those used
   after whenExpire keep their object, the others let it go; an entry is dropped only
   if its object is gone, and is dropped if its object was gone before or lived by
   this entry alone.
   */
  ghost predicate Swept<Key(!new), Obj(!new)>(start: Cache<Key, Obj>, cache: Cache<Key, Obj>, handles: multiset<Obj>,
                                              todo: set<Key>, whenExpire: int) {
    && cache.Keys <= start.Keys
    && (forall k :: k in cache && k !in todo ==> Kept(start[k], cache[k], whenExpire))
    && (forall k :: k in start && k !in cache ==> Expired(cache, handles, start[k]))
    && (forall k :: k in start && k !in cache ==> start[k].ptr.None? || start[k].lastAccess <= whenExpire)
    && (forall k :: k in start && k !in todo && start[k].ptr.None? && Expired(start, handles, start[k]) ==> k !in cache)
    && (forall k :: k in start && k !in todo && OnlyHolder(start, handles, k) && start[k].lastAccess <= whenExpire ==> k !in cache)
  }

  /** The objects that a sweep leaves in the entries. */
  lemma SweptObjectsOf<Key(!new), Obj(!new)>(start: Cache<Key, Obj>, cache: Cache<Key, Obj>, handles: multiset<Obj>, w: int)
    requires Swept(start, cache, handles, {}, w)
    ensures forall k :: k in start && start[k].ptr.Some? ==>
              if start[k].lastAccess > w then k in cache && cache[k].ptr == start[k].ptr else k !in cache || cache[k].ptr == None
  {
    hide Alive, OnlyHolder;
  }

  /** The entries that a sweep leaves: dropped ones have lost their object, and those whose object goes with them are dropped. */
  lemma SweptEntriesOf<Key(!new), Obj(!new)>(start: Cache<Key, Obj>, cache: Cache<Key, Obj>, handles: multiset<Obj>, w: int, k: Key)
    requires Swept(start, cache, handles, {}, w) && k in start
    ensures EntrySwept(start, cache, handles, w, k)
  {
    hide Alive, OnlyHolder, Held, Elsewhere;
    if start[k].weak.Some? {
      HeldIsAlive(start, handles, start[k].weak.value);
      HeldIsAlive(cache, handles, start[k].weak.value);
    }
    if start[k].ptr.Some? && !Elsewhere(start, handles, k, start[k].ptr.value) {
      HeldHereOnly(start, handles, k);
    }
  }

  lemma SweptKeys<Key(!new), Obj(!new)>(start: Cache<Key, Obj>, cache: Cache<Key, Obj>, handles: multiset<Obj>, w: int)
    requires Swept(start, cache, handles, {}, w)
    ensures cache.Keys <= start.Keys
  {
  }

  /** What a sweep with threshold w makes of the entry of k. */
  ghost predicate EntrySwept<Key(!new), Obj>(start: Cache<Key, Obj>, cache: Cache<Key, Obj>, handles: multiset<Obj>, w: int, k: Key)
    requires k in start
  {
    var e := start[k];
    && (k in cache ==> cache[k].weak == e.weak && cache[k].lastAccess == e.lastAccess)
    && (k !in cache && e.weak.Some? ==> !Held(cache, handles, e.weak.value))
    && (e.ptr.None? && (e.weak.None? || !Held(start, handles, e.weak.value)) ==> k !in cache)
    && (e.ptr.Some? && e.lastAccess <= w && !Elsewhere(start, handles, k, e.ptr.value) ==> k !in cache)
  }

  lemma HeldHereOnly<Key(!new), Obj>(cache: Cache<Key, Obj>, handles: multiset<Obj>, k: Key)
    requires k in cache && cache[k].ptr.Some? && !Elsewhere(cache, handles, k, cache[k].ptr.value)
    ensures OnlyHolder(cache, handles, k)
  {
    assert Holders(cache, cache[k].ptr.value) == {k};
  }

  /** The entries after one turn of the loop. */
  function SweptCache<Key(==), Obj(==)>(cache: Cache<Key, Obj>, handles: multiset<Obj>, k: Key, whenExpire: int, swept: multiset<Obj>): Cache<Key, Obj>
    requires k in cache
  {
    var e := cache[k];
    if e.ptr.None? then
      if e.weak.None? || (!Alive(cache, handles, e.weak.value) && e.weak.value !in swept) then cache - {k} else cache
    else if e.lastAccess <= whenExpire then
      if Unique(cache, handles, swept, e.ptr.value) then cache - {k} else cache[k := e.(ptr := None)]
    else cache
  }

  function SweptObjects<Key(==), Obj(==)>(cache: Cache<Key, Obj>, handles: multiset<Obj>, k: Key, whenExpire: int, swept: multiset<Obj>): multiset<Obj>
    requires k in cache
  {
    var e := cache[k];
    if e.ptr.Some? && e.lastAccess <= whenExpire && Unique(cache, handles, swept, e.ptr.value) then swept + multiset{e.ptr.value} else swept
  }

  /** In the middle of a sweep: nothing came to life, and what was swept is held by the sweep alone. */
  ghost predicate Sweeping<Key(!new), Obj(!new)>(start: Cache<Key, Obj>, cache: Cache<Key, Obj>, handles: multiset<Obj>,
                                                 todo: set<Key>, whenExpire: int, swept: multiset<Obj>) {
    && Swept(start, cache, handles, todo, whenExpire)
    && (forall k :: k in todo ==> k in start && k in cache && cache[k] == start[k])
    && (forall o :: Holders(cache, o) <= Holders(start, o))
    && (forall o :: o in swept ==> !Alive(cache, handles, o) && Alive(start, handles, o))
  }

  /** A turn only takes strong pointers away. */
  lemma TurnShrinks<Key, Obj>(cache: Cache<Key, Obj>, handles: multiset<Obj>, k: Key, whenExpire: int, swept: multiset<Obj>)
    requires k in cache
    ensures var cache' := SweptCache(cache, handles, k, whenExpire, swept);
            && (forall o :: Holders(cache', o) <= Holders(cache, o))
            && (forall o :: Alive(cache', handles, o) ==> Alive(cache, handles, o))
  {
    hide Unique;
    var cache' := SweptCache(cache, handles, k, whenExpire, swept);
    assert forall j :: j in cache' ==> j in cache && (cache'[j].ptr == cache[j].ptr || cache'[j].ptr.None?);
  }

  /** A turn drops its entry only when it should. */
  lemma TurnDropsOnly<Key(!new), Obj(!new)>(cache: Cache<Key, Obj>, handles: multiset<Obj>, k: Key, whenExpire: int, swept: multiset<Obj>)
    requires k in cache && Paired(cache)
    ensures var cache' := SweptCache(cache, handles, k, whenExpire, swept);
            && (k !in cache' ==> Expired(cache', handles, cache[k]) && (cache[k].ptr.None? || cache[k].lastAccess <= whenExpire))
            && (forall o :: o in SweptObjects(cache, handles, k, whenExpire, swept) && o !in swept ==> !Alive(cache', handles, o) && Alive(cache, handles, o))
  {
    var e := cache[k];
    AliveAfterErase(cache, handles, k);
    if e.ptr.Some? && e.lastAccess <= whenExpire && Unique(cache, handles, swept, e.ptr.value) {
      LastHolder(cache, handles, {}, k, swept);
      assert k in Holders(cache, e.ptr.value);
    }
  }

  /** A turn drops its entry whenever it should: what the sweep holds was alive at the start and is not any more. */
  lemma TurnDropsAll<Key(!new), Obj(!new)>(start: Cache<Key, Obj>, cache: Cache<Key, Obj>, handles: multiset<Obj>, k: Key, whenExpire: int, swept: multiset<Obj>)
    requires k in start && k in cache && cache[k] == start[k]
    requires forall o :: Holders(cache, o) <= Holders(start, o)
    requires forall o :: o in swept ==> !Alive(cache, handles, o) && Alive(start, handles, o)
    ensures var cache' := SweptCache(cache, handles, k, whenExpire, swept);
            && (start[k].ptr.None? && Expired(start, handles, start[k]) ==> k !in cache')
            && (OnlyHolder(start, handles, k) && start[k].lastAccess <= whenExpire ==> k !in cache')
  {
    if OnlyHolder(start, handles, k) {
      var o := start[k].ptr.value;
      assert k in Holders(cache, o);
      assert |Holders(start, o) - {k}| == |Holders(start, o)| - 1 == 0;
      assert Holders(start, o) == {k} == Holders(cache, o);
      assert Unique(cache, handles, swept, o);
    }
  }

  lemma SweepingStep<Key(!new), Obj(!new)>(start: Cache<Key, Obj>, cache: Cache<Key, Obj>, handles: multiset<Obj>,
                                           todo: set<Key>, whenExpire: int, swept: multiset<Obj>, k: Key)
    requires Sweeping(start, cache, handles, todo, whenExpire, swept) && k in todo && Paired(cache)
    ensures Sweeping(start, SweptCache(cache, handles, k, whenExpire, swept), handles, todo - {k}, whenExpire,
                     SweptObjects(cache, handles, k, whenExpire, swept))
  {
    TurnShrinks(cache, handles, k, whenExpire, swept);
    TurnDropsOnly(cache, handles, k, whenExpire, swept);
    TurnDropsAll(start, cache, handles, k, whenExpire, swept);
    OthersStay(cache, handles, k, whenExpire, swept);
    var cache' := SweptCache(cache, handles, k, whenExpire, swept);
    var swept' := SweptObjects(cache, handles, k, whenExpire, swept);
    NoneRevived(start, cache, handles, swept, cache', swept');
    hide Alive, Unique, Holders, SweptCache, SweptObjects, OnlyHolder, Kept;
    SweptAdvances(start, cache, handles, todo, whenExpire, k, cache');
  }

  lemma SweptAdvances<Key(!new), Obj(!new)>(start: Cache<Key, Obj>, cache: Cache<Key, Obj>, handles: multiset<Obj>, todo: set<Key>,
                                            whenExpire: int, k: Key, cache': Cache<Key, Obj>)
    requires Swept(start, cache, handles, todo, whenExpire) && k in todo && k in start && k in cache && cache[k] == start[k]
    requires forall o :: Alive(cache', handles, o) ==> Alive(cache, handles, o)
    requires cache'.Keys <= cache.Keys && forall j :: j in cache && j != k ==> j in cache' && cache'[j] == cache[j]
    requires k in cache' ==> Kept(cache[k], cache'[k], whenExpire)
    requires k !in cache' ==> Expired(cache', handles, cache[k]) && (cache[k].ptr.None? || cache[k].lastAccess <= whenExpire)
    requires start[k].ptr.None? && Expired(start, handles, start[k]) ==> k !in cache'
    requires OnlyHolder(start, handles, k) && start[k].lastAccess <= whenExpire ==> k !in cache'
    ensures Swept(start, cache', handles, todo - {k}, whenExpire)
  {
    hide Alive, OnlyHolder, Kept;
  }

  lemma NoneRevived<Key(!new), Obj(!new)>(start: Cache<Key, Obj>, cache: Cache<Key, Obj>, handles: multiset<Obj>, swept: multiset<Obj>,
                                          cache': Cache<Key, Obj>, swept': multiset<Obj>)
    requires forall o :: Holders(cache, o) <= Holders(start, o)
    requires forall o :: Holders(cache', o) <= Holders(cache, o)
    requires forall o :: o in swept ==> !Alive(cache, handles, o) && Alive(start, handles, o)
    requires forall o :: o in swept' && o !in swept ==> !Alive(cache', handles, o) && Alive(cache, handles, o)
    ensures forall o :: Holders(cache', o) <= Holders(start, o)
    ensures forall o :: o in swept' ==> !Alive(cache', handles, o) && Alive(start, handles, o)
  {
  }

  lemma OthersStay<Key, Obj>(cache: Cache<Key, Obj>, handles: multiset<Obj>, k: Key, whenExpire: int, swept: multiset<Obj>)
    requires k in cache
    ensures var cache' := SweptCache(cache, handles, k, whenExpire, swept);
            && cache'.Keys <= cache.Keys
            && (forall j :: j in cache && j != k ==> j in cache' && cache'[j] == cache[j])
            && (k in cache' ==> Kept(cache[k], cache'[k], whenExpire))
  {
    hide Alive, Unique;
  }

  // ---- the cache ----

  class TaggedCache<Key(==,!new), Obj(==,!new)> {
    var cache: Cache<Key, Obj>
    var count: int
    var targetSize: int
    var targetAge: int
    var hits: nat
    var misses: nat

    /** The handles that clients hold. */
    var handles: multiset<Obj>

    /** The pairs handed out since the key was last replaced, invalidated or cleared. */
    ghost var handed: set<(Key, Obj)>
    ghost var known: set<Obj>

    /** How often a null pointer was stored as if it were an object. */
    ghost var nulls: nat

    ghost predicate Sound()
      reads this
    {
      Paired(cache) && Canonical(cache, handles, handed) && Known(cache, handles, handed, known)
    }

    /** The count is that of the entries with a strong pointer, but for the nulls. */
    ghost predicate Valid()
      reads this
    {
      Sound() && count == |Strong(cache)| + nulls
    }

    constructor (size: int, age: int)
      ensures Valid() && cache == map[] && handles == multiset{} && handed == {} && nulls == 0
      ensures targetSize == size && targetAge == age && hits == 0 && misses == 0
    {
      cache, count, targetSize, targetAge, hits, misses := map[], 0, size, age, 0, 0;
      handles, handed, known, nulls := multiset{}, {}, {}, 0;
      new;
      assert Strong(cache) == {};
    }

    /** The count is right exactly as long as no null was stored. */
    lemma CountIsStrong()
      requires Valid()
      ensures count == |Strong(cache)| <==> nulls == 0
    {
    }

    /** Two objects handed out under one key and both still held are the same. */
    lemma OneObjectPerKey(k: Key, a: Obj, b: Obj)
      requires Valid() && (k, a) in handed && (k, b) in handed && a in handles && b in handles
      ensures a == b
    {
    }

    // ---- clients ----

    method Create(o: Obj)
      requires Valid() && o !in known
      modifies `handles, `known
      ensures Valid() && handles == old(handles) + multiset{o}
    {
      ghost var before := handles;
      handles := handles + multiset{o};
      known := known + {o};
      forall k, p | (k, p) in handed && Alive(cache, handles, p) ensures k in cache && cache[k].weak == Some(p) {
        assert Alive(cache, before, p);
      }
    }

    method Copy(o: Obj)
      requires Valid() && o in handles
      modifies `handles
      ensures Valid() && handles == old(handles) + multiset{o}
    {
      CanonicalKept(cache, handles, handed, cache, handles + multiset{o});
      handles := handles + multiset{o};
    }

    method Drop(o: Obj)
      requires Valid() && o in handles
      modifies `handles
      ensures Valid() && handles == old(handles) - multiset{o}
    {
      CanonicalKept(cache, handles, handed, cache, handles - multiset{o});
      handles := handles - multiset{o};
    }

    // ---- operations ----

    /** Writes an entry, and perhaps hands its object out. */
    method Put(key: Key, e: Entry<Obj>, newHandles: multiset<Obj>, ghost hand: bool)
      requires Sound() && Storable(cache, handles, handed, key, e)
      requires forall o :: o in newHandles ==> Alive(cache, handles, o)
      requires hand ==> e.weak.Some? && Alive(cache, handles, e.weak.value)
      modifies `cache, `handles, `handed
      ensures Sound() && cache == old(cache)[key := e] && handles == newHandles
      ensures handed == (if hand then old(handed) + {(key, e.weak.value)} else old(handed))
      ensures |Strong(cache)|
           == |Strong(old(cache))| - (if key in old(cache) && old(cache)[key].ptr.Some? then 1 else 0) + (if e.ptr.Some? then 1 else 0)
    {
      hide Alive, Strong;
      Stored(cache, handles, handed, key, e, newHandles);
      StrongAfterStore(cache, key, e);
      KnownAfterStore(cache, handles, handed, known, key, e, newHandles, hand);
      cache := cache[key := e];
      handles := newHandles;
      if hand {
        handed := handed + {(key, e.weak.value)};
      }
    }

    method Erase(key: Key)
      requires Sound() && forall o :: (key, o) in handed ==> !Alive(cache - {key}, handles, o)
      modifies `cache
      ensures Sound() && cache == old(cache) - {key}
      ensures |Strong(cache)| == |Strong(old(cache))| - (if key in old(cache) && old(cache)[key].ptr.Some? then 1 else 0)
    {
      hide Alive, Strong;
      Erased(cache, handles, handed, key);
      StrongAfterErase(cache, key);
      cache := cache - {key};
    }

    /** A client takes a handle of the object that was found. */
    method Fetch(key: Key, now: int) returns (r: Option<Obj>)
      requires Valid()
      modifies `cache, `count, `hits, `misses, `handles, `handed
      ensures Valid() && r == Found(old(cache), old(handles), key)
      ensures r == if key in old(cache) && old(cache)[key].weak.Some? && Held(old(cache), old(handles), old(cache)[key].weak.value)
                   then old(cache)[key].weak else None
      ensures cache == (if r.Some? then old(cache)[key := Entry(r, r, now)] else old(cache) - {key})
      ensures handles == (if r.Some? then old(handles) + multiset{r.value} else old(handles))
      ensures handed == (if r.Some? then old(handed) + {(key, r.value)} else old(handed))
      ensures hits == old(hits) + (if key in old(cache) && old(cache)[key].ptr.Some? then 1 else 0)
      ensures misses == old(misses) + (if r.None? then 1 else 0)
    {
      hide Alive, Strong, Paired, Known, Held;
      FoundIs(cache, handles, key);
      if key !in cache {
        assert cache == cache - {key};
        misses := misses + 1;
        return None;
      }
      var entry := cache[key].(lastAccess := now);
      if entry.ptr.Some? {
        CachedIsFound(cache, handles, key);
        hits := hits + 1;
        r := entry.ptr;
        AliveHandles(cache, handles, r.value);
        Put(key, entry, handles + multiset{r.value}, true);
        return;
      }
      r := Found(cache, handles, key);
      if r.Some? {
        count := count + 1;
        AliveHandles(cache, handles, r.value);
        Put(key, entry.(ptr := r), handles + multiset{r.value}, true);
        return;
      }
      NothingLost(cache, handles, handed, key);
      Erase(key);
      misses := misses + 1;
    }

    method RefreshIfPresent(key: Key, now: int) returns (found: bool)
      requires Valid()
      modifies `cache, `count, `handles, `handed
      ensures Valid() && found == Found(old(cache), old(handles), key).Some?
      ensures var r := Found(old(cache), old(handles), key);
              cache == (if r.Some? then old(cache)[key := Entry(r, r, now)] else old(cache) - {key})
      ensures handles == old(handles) && handed == old(handed)
    {
      hide Alive, Strong, Paired, Known;
      found := false;
      if key in cache {
        var entry := cache[key];
        HandlesLive(cache, handles);
        if entry.ptr.None? {
          var r := Found(cache, handles, key);
          if r.Some? {
            count := count + 1;
            Put(key, Entry(r, r, now), handles, false);
            found := true;
          } else {
            NothingLost(cache, handles, handed, key);
            Erase(key);
          }
        } else {
          CachedIsFound(cache, handles, key);
          Put(key, entry.(lastAccess := now), handles, false);
          found := true;
        }
      } else {
        assert cache == cache - {key};
      }
    }

    /** From here on, what was handed out under the key before does not count. */
    ghost method Forget(key: Key)
      requires Sound()
      modifies `handed
      ensures Sound() && handed == WithoutKey(old(handed), key)
      ensures forall o :: (key, o) !in handed
    {
      handed := WithoutKey(handed, key);
    }

    /** The caller's handle is exchanged for one of the entry's object. */
    method HandOver(key: Key, data: Option<Obj>, e: Entry<Obj>)
      requires Sound() && key in cache && e.ptr.Some? && e.ptr == e.weak == cache[key].weak
      requires Alive(cache, handles, e.ptr.value)
      modifies `cache, `handles, `handed
      ensures Sound() && cache == old(cache)[key := e] && handles == old(handles) - Handle(data) + Handle(e.ptr)
      ensures handed == old(handed) + Pair(key, e.ptr)
      ensures |Strong(cache)| == |Strong(old(cache))| + (if old(cache)[key].ptr.Some? then 0 else 1)
    {
      hide Strong, Paired, Known;
      AliveHandles(cache, handles, e.ptr.value);
      var newHandles := handles - Handle(data) + Handle(e.ptr);
      assert forall o :: o in newHandles ==> o in handles + multiset{e.ptr.value};
      hide Alive;
      Put(key, e, newHandles, true);
    }

    /** The object stored under the key, in place of the caller's own; or the caller's, stored. */
    method Canonicalize(key: Key, data: Option<Obj>, replace: bool, now: int) returns (found: bool, out: Option<Obj>)
      requires Valid() && (data.Some? ==> data.value in handles)
      modifies `cache, `count, `handles, `handed, `nulls
      ensures Valid() && found == Found(old(cache), old(handles), key).Some?
      ensures out == (if found && !replace then Found(old(cache), old(handles), key) else data)
      ensures cache == old(cache)[key := Entry(out, out, now)]
      ensures handles == old(handles) - Handle(data) + Handle(out)
      ensures handed == (if found && replace then WithoutKey(old(handed), key) else old(handed)) + Pair(key, out)
      ensures nulls == old(nulls) + (if out.None? then 1 else 0)
    {
      hide Alive, Strong, Paired, Known, WithoutKey, Canonical, Handle, Pair;
      SameHandle(handles, data);
      if key !in cache {
        NothingLost(cache, handles, handed, key);
        count := count + 1;
        PutData(key, data, now);
        return false, data;
      }
      var entry := cache[key].(lastAccess := now);
      if entry.ptr.Some? {
        CachedIsFound(cache, handles, key);
        if replace {
          ReplaceData(key, data, now);
          out := data;
        } else {
          out := entry.ptr;
          HandOver(key, data, entry);
        }
        return true, out;
      }
      var cachedData := Found(cache, handles, key);
      if cachedData.Some? {
        count := count + 1;
        if replace {
          ReplaceData(key, data, now);
          out := data;
        } else {
          out := cachedData;
          HandOver(key, data, entry.(ptr := cachedData));
        }
        return true, out;
      }
      NothingLost(cache, handles, handed, key);
      count := count + 1;
      PutData(key, data, now);
      return false, data;
    }

    /** Lines 217-218 and 231-232. */
    method ReplaceData(key: Key, data: Option<Obj>, now: int)
      requires Sound() && (data.Some? ==> data.value in handles)
      modifies `cache, `handed, `nulls, `handles
      ensures Sound() && cache == old(cache)[key := Entry(data, data, now)] && handles == old(handles)
      ensures handed == WithoutKey(old(handed), key) + Pair(key, data) && nulls == old(nulls) + (if data.None? then 1 else 0)
      ensures |Strong(cache)|
           == |Strong(old(cache))| - (if key in old(cache) && old(cache)[key].ptr.Some? then 1 else 0) + (if data.Some? then 1 else 0)
    {
      hide Alive, Strong, Paired, Known, WithoutKey, Canonical, Pair;
      Forget(key);
      PutData(key, data, now);
    }

    /** Stores what the caller brought, null or not. */
    method PutData(key: Key, data: Option<Obj>, now: int)
      requires Sound() && (data.Some? ==> data.value in handles)
      requires forall o :: (key, o) in handed ==> !Alive(cache, handles, o)
      modifies `cache, `handed, `nulls, `handles
      ensures Sound() && cache == old(cache)[key := Entry(data, data, now)] && handles == old(handles)
      ensures handed == old(handed) + Pair(key, data) && nulls == old(nulls) + (if data.None? then 1 else 0)
      ensures |Strong(cache)|
           == |Strong(old(cache))| - (if key in old(cache) && old(cache)[key].ptr.Some? then 1 else 0) + (if data.Some? then 1 else 0)
    {
      hide Strong, Paired, Known, Canonical;
      HandlesLive(cache, handles);
      if data.None? {
        nulls := nulls + 1;
      }
      Put(key, Entry(data, data, now), handles, data.Some?);
    }

    /** Lets the strong pointer go; the entry stays if it is valid and its object lives on. */
    method Del(key: Key, valid: bool) returns (ret: bool)
      requires Valid()
      modifies `cache, `count, `handles, `handed
      ensures Valid() && ret == (key in old(cache) && old(cache)[key].ptr.Some?)
      ensures cache == Deleted(old(cache), old(handles), key, valid)
      ensures key !in old(cache) ==> cache == old(cache)
      ensures key in old(cache) ==>
                cache == var e := old(cache)[key];
                         if valid && e.weak.Some? && Elsewhere(old(cache), old(handles), key, e.weak.value)
                         then old(cache)[key := e.(ptr := None)] else old(cache) - {key}
      ensures handles == old(handles) && handed == (if key in old(cache) && !valid then WithoutKey(old(handed), key) else old(handed))
    {
      hide Alive, Strong, Paired, Known, WithoutKey, Elsewhere;
      DeletedIs(cache, handles, key, valid);
      if key !in cache {
        assert cache == cache - {key};
        return false;
      }
      ret := false;
      var entry := cache[key];
      if entry.ptr.Some? {
        count := count - 1;
        LetGo(key);
        ret := true;
      } else {
        assert cache == cache[key := entry.(ptr := None)];
      }
      var gone := Found(cache, handles, key).None?;
      if !valid || gone {
        if gone {
          NothingLost(cache, handles, handed, key);
        }
        if !valid {
          Forget(key);
        }
        Erase(key);
        assert cache == old(cache) - {key};
      }
    }

    /** entry.ptr.reset() */
    method LetGo(key: Key)
      requires Sound() && key in cache && cache[key].ptr.Some?
      modifies `cache, `handles, `handed
      ensures Sound() && cache == old(cache)[key := old(cache)[key].(ptr := None)]
      ensures handles == old(handles) && handed == old(handed) && |Strong(cache)| == |Strong(old(cache))| - 1
    {
      hide Alive, Strong, Paired, Known;
      HandlesLive(cache, handles);
      Put(key, cache[key].(ptr := None), handles, false);
    }

    method Clear()
      requires Valid()
      modifies `cache, `count, `handed, `nulls
      ensures Valid() && cache == map[] && count == 0 && handed == {} && nulls == 0
    {
      cache := map[];
      count := 0;
      handed := {};
      nulls := 0;
      assert Strong(cache) == {};
    }

    method Reset()
      requires Valid()
      modifies `cache, `count, `handed, `nulls, `hits, `misses
      ensures Valid() && cache == map[] && count == 0 && handed == {} && nulls == 0 && hits == 0 && misses == 0
    {
      Clear();
      hits := 0;
      misses := 0;
    }

    // ---- sweep ----

    /** One turn of the loop; swept is what the sweep itself keeps alive. */
    method SweepEntry(k: Key, whenExpire: int, swept: multiset<Obj>) returns (swept': multiset<Obj>)
      requires Valid() && k in cache
      modifies `cache, `count, `handles, `handed
      ensures Valid() && handles == old(handles) && handed == old(handed)
      ensures cache == SweptCache(old(cache), handles, k, whenExpire, swept)
      ensures swept' == SweptObjects(old(cache), handles, k, whenExpire, swept)
    {
      hide Strong, Paired, Known, Canonical;
      var e := cache[k];
      swept' := swept;
      if e.ptr.None? {
        if e.weak.None? || (!Alive(cache, handles, e.weak.value) && e.weak.value !in swept) {
          NothingLost(cache, handles, handed, k);
          Erase(k);
        }
      } else if e.lastAccess <= whenExpire {
        count := count - 1;
        if Unique(cache, handles, swept, e.ptr.value) {
          swept' := swept + multiset{e.ptr.value};
          LastHolder(cache, handles, handed, k, swept);
          Erase(k);
        } else {
          LetGo(k);
        }
      }
    }

    /** A negative target size on an empty cache traps: line 126 divides by zero. */
    method Sweep(now: int) returns (trapped: bool, w: int)
      requires Valid()
      modifies `cache, `count, `handles, `handed
      ensures Valid() && handles == old(handles) && handed == old(handed)
      ensures trapped <==> targetSize < 0 && old(cache) == map[]
      ensures trapped ==> cache == old(cache) && count == old(count)
      ensures !trapped ==> w == WhenExpire(now, targetAge, targetSize, |old(cache)|) && Swept(old(cache), cache, handles, {}, w)
      ensures !trapped ==> forall k :: k in old(cache) && old(cache)[k].ptr.Some? ==>
                             if old(cache)[k].lastAccess > w then k in cache && cache[k].ptr == old(cache)[k].ptr
                             else k !in cache || cache[k].ptr == None
      ensures !trapped ==> cache.Keys <= old(cache).Keys && forall k :: k in old(cache) ==> EntrySwept(old(cache), cache, handles, w, k)
      ensures !trapped && (targetSize == 0 || |old(cache)| <= targetSize) ==> w == now - targetAge
      ensures !trapped && 0 < targetSize < |old(cache)| && Representable(now, targetAge, targetSize) ==>
                && w <= now - 1_000_000_000
                && ((now - w) * |old(cache)| <= targetAge * targetSize < (now - w + 1) * |old(cache)|
                    || (w == now - 1_000_000_000 && targetAge * targetSize < 1_000_000_000 * |old(cache)|))
    {
      hide Strong, Paired, Known, Canonical, Alive, Swept, EntrySwept, WhenExpire, Representable;
      trapped, w := targetSize < 0 && |cache| == 0, now;
      if trapped {
        return;
      }
      ThresholdCases(now, targetAge, targetSize, |cache|);
      w := WhenExpire(now, targetAge, targetSize, |cache|);
      SweepAll(w);
      SweptObjectsOf(old(cache), cache, handles, w);
      forall k | k in old(cache) ensures EntrySwept(old(cache), cache, handles, w, k) {
        SweptEntriesOf(old(cache), cache, handles, w, k);
      }
      assert cache.Keys <= old(cache).Keys by {
        SweptKeys(old(cache), cache, handles, w);
      }
    }

    /** Lines 137-172. */
    method SweepAll(whenExpire: int)
      requires Valid()
      modifies `cache, `count, `handles, `handed
      ensures Valid() && handles == old(handles) && handed == old(handed)
      ensures Swept(old(cache), cache, handles, {}, whenExpire)
    {
      hide Strong, Paired, Known, Canonical, Alive;
      var swept: multiset<Obj> := multiset{};
      var todo := cache.Keys;
      ghost var start := cache;
      while todo != {}
        invariant Valid() && handles == old(handles) && handed == old(handed)
        invariant Sweeping(start, cache, handles, todo, whenExpire, swept)
      {
        var k :| k in todo;
        SweepingStep(start, cache, handles, todo, whenExpire, swept, k);
        swept := SweepEntry(k, whenExpire, swept);
        todo := todo - {k};
      }
    }
  }

  /** A null stored in an empty cache is counted, though no entry holds an object. */
  method StoreNull<Key(==,!new), Obj(==,!new)>(key: Key, now: int) returns (count: int, cache: Cache<Key, Obj>)
    ensures cache == map[key := Entry(None, None, now)] && Strong(cache) == {} && count == 1
  {
    var c := new TaggedCache<Key, Obj>(0, 0);
    var found, out := c.Canonicalize(key, None, false, now);
    count, cache := c.count, c.cache;
    assert Strong(cache) == {};
  }
}
