# ConnectionPool bookkeeping, in Dafny

This project models the resource bookkeeping of `ConnectionPool` from
`connection_pool.py`, a generic object pool. The pool keeps two deques of
opaque handles. `_free_items` holds idle handles: `_acquire` takes from its
head and `_release` appends to its tail. `_used_items` holds the handles that
are checked out. It also keeps a cap, `_max_connections`, and a factory that
creates handles. Handles are created eagerly by `_initialize` and lazily by
`_acquire`. At the cap with nothing free, `_acquire` raises
`PoolIsFullException`. `connection()` brackets a block of work between an
acquire and a release in `finally`.

The files:

- `seqs.dfy` (module `Seqs`) holds the sequence helpers:
  - `RemoveFirst`, which is what `deque.remove` does to `_used_items`;
  - `Range`, the handles a counting factory creates, in creation order;
  - distinctness and its cardinality lemma.
- `pool_model.dfy` (module `PoolModel`) is the pool as a value, `State(free, used, next)`.
  - `next` is the factory's counter.
  - There is one step function per operation (`Initialize`, `Construct`, `Acquire`, `Release`, `Connection`) and `AcquireMany`, which runs several acquisitions in a row.
  - The lemmas state the pool's invariant and its promises about these functions: the total changes only on lazy creation, free and used stay disjoint, reuse is FIFO, raising operations change nothing, the pool stays within its cap, and `connection()` puts the handle back.
- `connection_pool.dfy` (module `ConnectionPool`) holds the classes:
  - class `Pool` has sequence fields `free` and `used` that its methods reassign.
  - class `HandleFactory` stands for the factory: a counter, so each handle it creates is new.
  - Every method of `Pool` is proved to keep the invariant `Valid()`. Its result and new state are proved equal to the matching `PoolModel` function applied to the old state.

Each exception is a `Result` error: `PoolIsFull` for `PoolIsFullException`,
`CreationFailed` for a factory that raises during lazy creation, and `NotInUse`
for the `ValueError` that `deque.remove` raises when `_release` gets a handle
that is not checked out. The factory's failure is an input of `Acquire` (`factoryFails`).
The outcome of the caller's block in `connection()` is an input too (`bodyRaises`).

Where the code departs from the intended design, the model follows the code:

- The constructor does not check `initial_connections <= max_connections` or
  `max_connections >= 1`. The model accepts any integers. `range(n)` with
  `n <= 0` creates nothing: `Initialize` handles that case.
- A pool built with more initial handles than its cap is allowed. The cap only
  stops lazy creation. `AcquireWithinCap` shows that a pool within its cap stays
  within it.
- The deques are modelled as starting empty, with no `maxlen` (see Findings).

## Model

| member | source | states |
|---|---|---|
| `Seqs.RemoveFirst` | connection_pool.py:84 | `deque.remove(conn)` on `used`: the result is the input unchanged when `conn` is absent. When it is present, the result is one shorter and has exactly one copy of `conn` fewer (a multiset equation). |
| `Seqs.RemoveFirstCutsFirstOccurrence` | connection_pool.py:84 | If `conn` first occurs at position `i`, the removal cuts out exactly position `i`; everything before and after it stays in order. |
| `PoolModel.ValidDisjoint` | connection_pool.py:68-85 | In a valid pool no handle is both free and used, and neither deque repeats a handle. |
| `PoolModel.SizeCountsHandles` | connection_pool.py:52-54 | In a valid pool, `len(pool)` (free plus used) equals the number of different handles the pool owns. |
| `PoolModel.InitializeFills` | connection_pool.py:40-43 | `_initialize(n)` calls the factory `max(n, 0)` times. It appends the new handles to `free` in creation order and leaves `used` as it was. The total grows by that count and the invariant is kept. |
| `PoolModel.ConstructFills` | connection_pool.py:30-43 | The pool as constructed (with empty deques) has `free` equal to the `max(n, 0)` created handles in creation order, `used` empty, size `max(n, 0)`, and is valid. |
| `PoolModel.AcquireReusesHead` | connection_pool.py:70-73 | With `free` non-empty, `_acquire` returns the head of `free`, which moves to the tail of `used`. The total and the multiset of owned handles are unchanged, the returned handle is no longer free, and the invariant holds. |
| `PoolModel.AcquireCreates` | connection_pool.py:75-78 | With `free` empty and the total under the cap, the factory's new handle is not yet owned. It is appended to `used` and returned. The total grows by exactly one and the owned handles gain exactly that one. |
| `PoolModel.AcquireRaisesUnchanged` | connection_pool.py:75-80 | Both directions: `PoolIsFull` is raised iff `free` is empty and the total is at or over the cap. `CreationFailed` is raised iff `free` is empty, the pool is under the cap and the factory raises. A raising acquire leaves the state unchanged. |
| `PoolModel.AcquireWithinCap` | connection_pool.py:68-80 | The total grows by one exactly when a handle is created, which happens only under the cap, and otherwise stays the same. A pool within its cap stays within it. |
| `PoolModel.AcquirePreservesValid` | connection_pool.py:68-80 | Every branch of `_acquire` keeps the invariant (no handle owned twice, every handle created by the factory). A returned handle is in `used` and not in `free`. |
| `PoolModel.ReleaseReturnsToTail` | connection_pool.py:82-85 | Releasing a checked-out handle appends it to the tail of `free` and removes it from `used`. It is then no longer in `used`. The total and the owned handles are unchanged and the invariant holds. |
| `PoolModel.ReleaseRaisesUnchanged` | connection_pool.py:84-85 | Both directions: `_release` raises (`NotInUse`) iff the handle is not in `used`. It raises before anything is appended, so the state is unchanged. |
| `PoolModel.ReleasePreservesValid` | connection_pool.py:82-85 | Whether it succeeds or raises, `_release` keeps the invariant and the total. |
| `PoolModel.FifoReuse` | connection_pool.py:70-73 | `k <= len(free)` acquisitions return the first `k` free handles in order. Afterwards `free` is what remained and `used` has those handles appended in order. |
| `PoolModel.ReleasedHandleComesBackLast` | connection_pool.py:68-85 | After a release, the handles that were already free are handed out first, in order, and the released handle comes next. |
| `PoolModel.ExhaustsAtCapacity` | connection_pool.py:68-80 | Start within the cap, with a factory that never fails. Exactly `max - len(used)` more acquisitions succeed. Then `free` is empty, the total equals the cap, and the next acquire raises `PoolIsFull`. |
| `PoolModel.ConnectionReleasesOnEveryPath` | connection_pool.py:56-62 | `connection()` releases on every exit path, and the release never raises. Afterwards `used` is as before, whether the block raised or not. With free handles, the head is used and ends at the tail of `free`. When a handle is created, `free` ends as just that handle. When `_acquire` raises, the block does not run and the state is unchanged. |
| `PoolModel.SingleHandleScenario` | connection_pool.py:68-85 | A pool with one handle and a cap of one has size 1. A first acquire returns the handle and a second raises `PoolIsFull` without changing the state. After a release, the next acquire returns the same handle. |
| `PoolModel.ConstructAsWrittenRaises` | connection_pool.py:33-34 | The constructor as written raises `TypeError` for every choice of arguments, because `deque(max_connections)` is given an integer as its iterable. |
| `ConnectionPool.HandleFactory.Create` | connection_pool.py:76 | A factory call either raises and changes nothing, or returns the counter's value (a handle never returned before) and advances the counter. |
| `ConnectionPool.Pool.constructor` | connection_pool.py:30-38 | The new pool is valid, has the given cap and factory, and its state is `Construct(n, first)`. Here `first` is the factory's counter before the call. |
| `ConnectionPool.Pool.Initialize` | connection_pool.py:40-43 | The loop appends one factory handle per iteration to `free`. The final state is `PoolModel.Initialize` of the old state, and the invariant is kept. |
| `ConnectionPool.Pool.Iter` | connection_pool.py:48-50 | Yields the contents of `free`, in order. |
| `ConnectionPool.Pool.Len` | connection_pool.py:52-54 | Returns `len(free) + len(used)`. |
| `ConnectionPool.Pool.Size` | connection_pool.py:64-66 | The `size` property returns `len(self)`, that is `len(free) + len(used)`. |
| `ConnectionPool.Pool.Acquire` | connection_pool.py:68-80 | The result and the new free, used and factory state are those of `PoolModel.Acquire` on the old state, and the invariant is kept. |
| `ConnectionPool.Pool.Release` | connection_pool.py:82-85 | The result and the new free and used deques are those of `PoolModel.Release` on the old state, and the invariant is kept. |
| `ConnectionPool.Pool.Connection` | connection_pool.py:56-62 | The outcome and the new state are those of `PoolModel.Connection`: acquire, then the block, then release in `finally`. The invariant is kept. |

## Findings

| source | as written | input that shows it | evidently intended | confidence | as-written member | corrected member |
|---|---|---|---|---|---|---|
| connection_pool.py:33-34 | `deque(max_connections)` passes the cap as the deque's first parameter, which is the iterable of initial elements, not `maxlen`. | Any construction, for example `ConnectionPool(factory)` with the default `max_connections=10`: an integer is not iterable, so `deque(10)` raises `TypeError` before `_initialize` runs. | Both deques start empty. `maxlen=max_connections` is not intended either: it would silently drop handles when the eager fill is larger than the cap. | high; not executed | `PoolModel.ConstructAsWritten` (exhibited by `PoolModel.ConstructAsWrittenRaises`) | `PoolModel.Construct` (proved by `PoolModel.ConstructFills`); `ConnectionPool.Pool.constructor` builds it |

## Left out

- The `threading.RLock` and every `with self._pool_lock` block. Each method is modelled as one atomic, sequential step. Concurrency is not modelled.
- The `**kwargs` creation parameters and the real factory callable: foreign code with opaque arguments. The factory is abstracted as `HandleFactory`, a counter that hands out new handles. Handles are compared by number. Since each creation gives a new number, `deque.remove`'s equality test coincides with identity here.
- A factory that raises during the eager fill in `_initialize`: that aborts construction, and the half-built object is never returned. The model's eager fill always succeeds. A factory failure is modelled only on the lazy-creation path of `_acquire`.
- `ConnectionPool.Pool.Connection`: the caller's block is reduced to whether it raises. A block that itself acquires or releases on the same pool is not modelled.
- The `ConnectionPool.Pool` methods require `Valid()`, the object invariant that the constructor establishes and every method keeps. When two pools share one factory, each pool only sees the counter move forward, but the model does not prove that pool's invariant across the other pool's calls.
- `__repr__` and `logging`: formatting only.
- The `__main__` demonstration: it calls against an external MySQL driver.
- The laziness of the iterator that `__iter__` returns, and its behaviour under concurrent modification. `Iter` returns the contents of `free` at the call.
- `PoolIsEmptyException`: it is declared but never raised.
