/**
 * The memoising cache of `cache.ts`: `getOrSet` over a store mapping each key to a value
 * and its expiry time, with the clock and the fallback's outcome supplied as inputs.
 */
module Cache {
  import opened Results
  import opened JsValues

  datatype Entry<T> = Entry(value: T, expiresAt: int)

  /** The per-instance store; a fresh `CacheService` starts with the empty map. */
  type Store<T> = map<string, Entry<T>>

  /** A store entry is served while the clock is before its expiry time. */
  predicate Live<T>(e: Entry<T>, now: int)
  {
    now < e.expiresAt
  }

  /** `nodeCache.get(key)` at time `now`: the stored value unless absent or expired. */
  function Get<T>(store: Store<T>, key: string, now: int): (r: Option<T>)
    ensures r.Some? <==> key in store && Live(store[key], now)
    ensures r.Some? ==> r.value == store[key].value
  {
    if key in store && Live(store[key], now) then Some(store[key].value) else None
  }

  /** `nodeCache.set(key, value, ttl)` at time `now`: the entry expires `ttl` after `now`. */
  function Put<T>(store: Store<T>, key: string, value: T, ttl: int, now: int): (r: Store<T>)
    ensures r.Keys == store.Keys + {key}
    ensures r[key] == Entry(value, now + ttl)
    ensures forall k :: k in store && k != key ==> r[k] == store[k]
  {
    store[key := Entry(value, now + ttl)]
  }

  /** What one `getOrSet` call settles to, the store after it, and whether the fallback ran. */
  datatype Step<T, E> = Step(result: Attempt<T, E>, store: Store<T>, fallbackCalled: bool)

  /**
   * `getOrSet(key, fallback, ttl)`. The lookup happens at `now`; `fallback` is what the
   * fallback's promise would settle to, and `settledAt` the clock when it does; `truthy` is
   * JavaScript ToBoolean on the stored type.
   *
   * A live truthy value is returned without running the fallback and without touching the
   * store. Otherwise the fallback runs once; its value is stored under `key` and returned,
   * or its rejection propagates with the store exactly as before. No other key changes.
   */
  function GetOrSet<T, E>(store: Store<T>, key: string, fallback: Attempt<T, E>, ttl: int,
                          now: int, settledAt: int, truthy: T -> bool): (r: Step<T, E>)
    ensures !r.fallbackCalled <==> key in store && Live(store[key], now) && truthy(store[key].value)
    ensures !r.fallbackCalled ==> r.result == Ok(store[key].value) && r.store == store
    ensures r.fallbackCalled ==> r.result == fallback
    ensures r.fallbackCalled && fallback.Ok? ==>
      r.store.Keys == store.Keys + {key} && r.store[key] == Entry(fallback.value, settledAt + ttl)
    ensures fallback.Err? ==> r.store == store
    ensures forall k :: k != key ==> (k in r.store <==> k in store)
    ensures forall k :: k != key && k in store ==> r.store[k] == store[k]
  {
    var data := Get(store, key, now);
    if data.Some? && truthy(data.value) then Step(Ok(data.value), store, false)
    else
      match fallback
      case Err(e) => Step(Err(e), store, true)
      case Ok(v) => Step(Ok(v), Put(store, key, v, ttl, settledAt), true)
  }

  /**
   * After a miss that stored a truthy value, a call for the same key before the entry
   * expires is a hit: the fallback does not run and the stored value comes back.
   */
  lemma SecondCallHits<T, E>(store: Store<T>, key: string, first: Attempt<T, E>, second: Attempt<T, E>,
                             ttl: int, now1: int, settled1: int, now2: int, settled2: int, truthy: T -> bool)
    requires first.Ok? && truthy(first.value)
    requires GetOrSet(store, key, first, ttl, now1, settled1, truthy).fallbackCalled
    requires now2 < settled1 + ttl
    ensures var s1 := GetOrSet(store, key, first, ttl, now1, settled1, truthy).store;
            var r := GetOrSet(s1, key, second, ttl, now2, settled2, truthy);
            !r.fallbackCalled && r.result == Ok(first.value) && r.store == s1
  {
  }

  /** A stored value that is falsy is never served: the next call runs the fallback again. */
  lemma FalsyValueRefetches<T, E>(store: Store<T>, key: string, first: Attempt<T, E>, second: Attempt<T, E>,
                                  ttl: int, now1: int, settled1: int, now2: int, settled2: int, truthy: T -> bool)
    requires first.Ok? && !truthy(first.value)
    requires GetOrSet(store, key, first, ttl, now1, settled1, truthy).fallbackCalled
    ensures var s1 := GetOrSet(store, key, first, ttl, now1, settled1, truthy).store;
            GetOrSet(s1, key, second, ttl, now2, settled2, truthy).fallbackCalled
  {
  }

  /** Once the entry written by a miss has expired, the next call runs the fallback again. */
  lemma ExpiredEntryRefetches<T, E>(store: Store<T>, key: string, first: Attempt<T, E>, second: Attempt<T, E>,
                                    ttl: int, now1: int, settled1: int, now2: int, settled2: int, truthy: T -> bool)
    requires first.Ok?
    requires GetOrSet(store, key, first, ttl, now1, settled1, truthy).fallbackCalled
    requires now2 >= settled1 + ttl
    ensures var s1 := GetOrSet(store, key, first, ttl, now1, settled1, truthy).store;
            GetOrSet(s1, key, second, ttl, now2, settled2, truthy).fallbackCalled
  {
  }

  /** A rejected fallback leaves no trace: any later call behaves as if the failed one never happened. */
  lemma FailureDoesNotPoison<T, E>(store: Store<T>, key: string, first: Attempt<T, E>, second: Attempt<T, E>,
                                   ttl: int, now1: int, settled1: int, now2: int, settled2: int, truthy: T -> bool)
    requires first.Err?
    ensures var s1 := GetOrSet(store, key, first, ttl, now1, settled1, truthy).store;
            GetOrSet(s1, key, second, ttl, now2, settled2, truthy)
            == GetOrSet(store, key, second, ttl, now2, settled2, truthy)
  {
  }

  /** A fresh cache has nothing to serve: its first call for any key runs the fallback. */
  lemma FreshStoreMisses<T, E>(key: string, fallback: Attempt<T, E>, ttl: int, now: int, settledAt: int,
                               truthy: T -> bool)
    ensures GetOrSet(map[], key, fallback, ttl, now, settledAt, truthy).fallbackCalled
  {
  }

  /** JavaScript truthiness as the cache applies it to stored JavaScript values. */
  function JsTruthy(v: Value): bool
  {
    !IsFalsy(v)
  }

  /**
   * With JavaScript values, a live entry holding `0`, `""`, `false`, `null` or `undefined`
   * is a miss, while a live entry holding an empty array is a hit.
   */
  lemma FalsyStoredValues<E>(key: string, v: Value, fallback: Attempt<Value, E>, ttl: int,
                             now: int, settledAt: int, expiresAt: int)
    requires now < expiresAt
    ensures v in {Int(0), Str(""), Bool(false), Null, Undefined} ==>
      GetOrSet(map[key := Entry(v, expiresAt)], key, fallback, ttl, now, settledAt, JsTruthy).fallbackCalled
    ensures v == Arr([]) ==>
      GetOrSet(map[key := Entry(v, expiresAt)], key, fallback, ttl, now, settledAt, JsTruthy) ==
      Step(Ok(Arr([])), map[key := Entry(v, expiresAt)], false)
  {
  }
}
