/** The client's 100 ms volume cache, read by ipc_client_get_volume_fast (src/ipc/ipc_client.c) and, without ever
    asking the server, by the driver's audio thread (src/driver/app_volume_driver.c). */
module VolumeCache {
  import opened Words

  const TTL_MS: nat := 100

  datatype Cache<V> = Cache(pid: int, volume: V, muted: bool, timestamp: Uint64, valid: bool)

  /** ipc_client_init: nothing cached. */
  function Empty<V>(full: V): Cache<V> {
    Cache(-1, full, false, 0, false)
  }

  /** The hit test both lookups use; the age is an unsigned difference. */
  predicate Hit<V>(c: Cache<V>, pid: int, now: Uint64) {
    c.valid && c.pid == pid && Wrap64(now - c.timestamp) < TTL_MS
  }

  /** A store into the cache: ipc_client_set_cache, or a successful refresh. */
  datatype Store<V> = Store(pid: int, volume: V, muted: bool, at: Uint64)

  function Stored<V>(c: Cache<V>, w: Store<V>): Cache<V> {
    Cache(w.pid, w.volume, w.muted, w.at, true)
  }

  function AfterStores<V>(full: V, stores: seq<Store<V>>): Cache<V> {
    if stores == [] then Empty(full) else Stored(AfterStores(full, stores[..|stores| - 1]), stores[|stores| - 1])
  }

  /** `w` is the latest store for `pid`. */
  ghost predicate LatestFor<V>(stores: seq<Store<V>>, n: nat, pid: int) {
    n < |stores| && stores[n].pid == pid && forall m :: n < m < |stores| ==> stores[m].pid != pid
  }

  /** Over every run of stores, a lookup hits exactly when the very last store is for this pid and less than 100 ms
      old by the unsigned clock difference; it then yields what was most recently stored for this pid. */
  lemma HitIsLatest<V>(full: V, stores: seq<Store<V>>, pid: int, now: Uint64)
    ensures var c := AfterStores(full, stores);
            && (Hit(c, pid, now) <==>
                stores != [] && stores[|stores| - 1].pid == pid && Wrap64(now - stores[|stores| - 1].at) < TTL_MS)
            && (forall n: nat :: Hit(c, pid, now) && LatestFor(stores, n, pid) ==>
                  c.volume == stores[n].volume && c.muted == stores[n].muted)
  {
    forall n: nat | Hit(AfterStores(full, stores), pid, now) && LatestFor(stores, n, pid) ensures n == |stores| - 1 {
      assert stores[|stores| - 1].pid == pid;
    }
  }

  /** In clock terms: the store lies at most 99 ms in the past. A clock that has run backwards gives a miss, unless the
      difference wraps because the store is within 100 ms of the end of the 64-bit range above it. */
  lemma HitAge<V>(c: Cache<V>, pid: int, now: Uint64)
    requires c.valid && c.pid == pid
    ensures Hit(c, pid, now) <==>
            c.timestamp <= now < c.timestamp + TTL_MS || now + U64_SIZE < c.timestamp + TTL_MS
  {
  }
}
