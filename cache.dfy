/** api.go: InMemoryAPICache, a map from keys to values that expire.

    Go's map of pointers is modelled as a map to an Option: `None` is the
    nil pointer that Get leaves behind when it evicts an expired entry, so a
    key can be present and map to nothing. Instants and durations are
    integers in nanoseconds (time.Time and time.Duration); `time.Now()` is
    the `now` argument of each operation. */
module Cache {
  import opened Errors

  /** InMemoryCacheValue: the value and the instant after which it is stale. */
  datatype CacheValue<V> = CacheValue(v: V, expiration: int)

  type Entries<V> = map<string, Option<CacheValue<V>>>

  /** What InMemoryAPICache.Get returns at instant `now`. */
  function Lookup<V>(m: Entries<V>, k: string, now: int): Option<V>
  {
    if k !in m || m[k].None? then None
    else if now > m[k].value.expiration then None
    else Some(m[k].value.v)
  }

  /** The map after InMemoryAPICache.Get at instant `now`: an expired entry
      is overwritten with nil; the key stays. */
  function AfterGet<V>(m: Entries<V>, k: string, now: int): Entries<V>
  {
    if k in m && m[k].Some? && now > m[k].value.expiration then m[k := None] else m
  }

  /** The map after InMemoryAPICache.Set at instant `now`. */
  function AfterSet<V>(m: Entries<V>, k: string, v: V, duration: int, now: int): Entries<V>
  {
    m[k := Some(CacheValue(v, now + duration))]
  }

  class InMemoryAPICache<V> {
    var entries: Entries<V>

    /** `make(InMemoryAPICache)` */
    constructor ()
      ensures entries == map[]
    {
      entries := map[];
    }

    method Get(k: string, now: int) returns (r: Option<V>)
      modifies this
      ensures r == Lookup(old(entries), k, now)
      ensures entries == AfterGet(old(entries), k, now)
    {
      var e := if k in entries then entries[k] else None;
      if e.None? {
        return None;
      }
      if now > e.value.expiration {
        entries := entries[k := None];
        return None;
      }
      return Some(e.value.v);
    }

    method Set(k: string, v: V, duration: int, now: int)
      modifies this
      ensures entries == AfterSet(old(entries), k, v, duration, now)
    {
      entries := entries[k := Some(CacheValue(v, now + duration))];
    }
  }

  /** A value set with duration d is returned by Get at any instant up to
      and including now + d, and such a Get leaves the map as it was. */
  lemma SetThenGet<V>(m: Entries<V>, k: string, v: V, d: int, t: int, later: int)
    requires later <= t + d
    ensures Lookup(AfterSet(m, k, v, d, t), k, later) == Some(v)
    ensures AfterGet(AfterSet(m, k, v, d, t), k, later) == AfterSet(m, k, v, d, t)
  {
  }

  /** With a negative duration the entry is already stale for every Get at
      the same instant or later. */
  lemma SetNegativeDuration<V>(m: Entries<V>, k: string, v: V, d: int, t: int, later: int)
    requires d < 0 && t <= later
    ensures Lookup(AfterSet(m, k, v, d, t), k, later) == None
  {
  }

  /** Set writes its own key, with expiration now + duration, and no other. */
  lemma SetFrame<V>(m: Entries<V>, k: string, v: V, d: int, t: int, other: string)
    requires other != k
    ensures AfterSet(m, k, v, d, t)[k] == Some(CacheValue(v, t + d))
    ensures other in AfterSet(m, k, v, d, t) <==> other in m
    ensures other in m ==> AfterSet(m, k, v, d, t)[other] == m[other]
  {
  }

  /** Get of a key that was never set returns nil and changes nothing. */
  lemma GetMissing<V>(m: Entries<V>, k: string, now: int)
    requires k !in m
    ensures Lookup(m, k, now) == None && AfterGet(m, k, now) == m
  {
  }

  /** Get strictly after the expiration returns nil and leaves the key
      mapped to nil; at the expiration instant itself the value is still
      returned and nothing changes. */
  lemma GetExpiry<V>(m: Entries<V>, k: string, now: int)
    requires k in m && m[k].Some?
    ensures now > m[k].value.expiration ==>
      Lookup(m, k, now) == None && AfterGet(m, k, now) == m[k := None] && k in AfterGet(m, k, now)
    ensures now <= m[k].value.expiration ==>
      Lookup(m, k, now) == Some(m[k].value.v) && AfterGet(m, k, now) == m
  {
  }

  /** The eviction done by Get changes nothing that a Get at the same
      instant or later can observe, for any key. */
  lemma EvictionUnobservable<V>(m: Entries<V>, k: string, t: int, k': string, later: int)
    requires t <= later
    ensures Lookup(AfterGet(m, k, t), k', later) == Lookup(m, k', later)
  {
  }

  // A history of calls, and what it leaves observable.

  datatype Op<V> = SetOp(key: string, value: V, duration: int, at: int) | GetOp(key: string, at: int)

  function Apply<V>(m: Entries<V>, op: Op<V>): Entries<V>
  {
    match op
    case SetOp(k, v, d, t) => AfterSet(m, k, v, d, t)
    case GetOp(k, t) => AfterGet(m, k, t)
  }

  /** The map after the calls of `ops`, in order, starting from `m`. */
  function Replay<V>(m: Entries<V>, ops: seq<Op<V>>): Entries<V>
  {
    if ops == [] then m else Apply(Replay(m, ops[..|ops| - 1]), ops[|ops| - 1])
  }

  predicate Chronological<V>(ops: seq<Op<V>>)
  {
    forall i, j :: 0 <= i < j < |ops| ==> ops[i].at <= ops[j].at
  }

  /** The entry written by the last Set of key k in `ops`. */
  function LastSet<V>(ops: seq<Op<V>>, k: string): Option<CacheValue<V>>
  {
    if ops == [] then None
    else match ops[|ops| - 1]
      case SetOp(k', v, d, t) => if k' == k then Some(CacheValue(v, t + d)) else LastSet(ops[..|ops| - 1], k)
      case GetOp(_, _) => LastSet(ops[..|ops| - 1], k)
  }

  /** After any history, a key holds the entry of its last Set, or nil when
      that entry expired before the last call; a key never set is absent. */
  lemma {:induction false} ReplayHoldsLastSet<V>(ops: seq<Op<V>>, k: string)
    requires Chronological(ops)
    ensures LastSet(ops, k).None? ==> k !in Replay(map[], ops)
    ensures LastSet(ops, k).Some? ==>
      && k in Replay(map[], ops)
      && (|| Replay(map[], ops)[k] == LastSet(ops, k)
          || (Replay(map[], ops)[k].None? && LastSet(ops, k).value.expiration < ops[|ops| - 1].at))
  {
    if ops != [] {
      var n := |ops| - 1;
      var init := ops[..n];
      assert Chronological(init);
      ReplayHoldsLastSet(init, k);
      if n > 0 {
        assert init[n - 1].at <= ops[n].at;
      }
    }
  }

  /** Lazy eviction is invisible: after any chronological history, Get at
      `now` returns the value of the key's last Set exactly when now has not
      passed that Set's expiration. */
  lemma ReplayObservesLastSet<V>(ops: seq<Op<V>>, k: string, now: int)
    requires Chronological(ops)
    requires forall i :: 0 <= i < |ops| ==> ops[i].at <= now
    ensures Lookup(Replay(map[], ops), k, now) ==
      match LastSet(ops, k)
      case None => None
      case Some(e) => if now <= e.expiration then Some(e.v) else None
  {
    ReplayHoldsLastSet(ops, k);
  }
}
