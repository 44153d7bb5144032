/**
  The bookkeeping of `ConnectionPool` as values: the free deque, the used
  deque and the state of the factory, and one step function per operation.
  The class in module `ConnectionPool` is proved to follow these functions;
  the lemmas here state what the pool promises about them.
 */
module PoolModel {
  import opened Seqs

  /** A resource handle. The factory numbers the handles it creates, so handles are told apart by number. */
  type Handle = nat

  /** Why a pool operation raised. */
  datatype PoolError =
    | PoolIsFull      // `PoolIsFullException` from `_acquire`
    | CreationFailed  // the factory raised during lazy creation
    | NotInUse        // `deque.remove` raised in `_release`: the handle is not checked out

  datatype Result<T, E> = Ok(value: T) | Err(error: E)

  /**
    The pool's state: `free` (idle handles, head first), `used` (checked-out
    handles, in the order they were appended) and `next`, the number the
    factory gives to the next handle it creates.
   */
  datatype State = State(free: seq<Handle>, used: seq<Handle>, next: Handle)

  /** What one operation returned or raised, and the state after it. */
  datatype Step<T> = Step(out: Result<T, PoolError>, post: State)

  /** The total count `len(pool)`: free plus used. */
  function Size(s: State): nat {
    |s.free| + |s.used|
  }

  /** Every handle the pool owns, with multiplicity. */
  ghost function Handles(s: State): multiset<Handle> {
    multiset(s.free + s.used)
  }

  /**
    The pool's invariant: no handle is owned twice (so free and used are
    disjoint and neither repeats an element), and every owned handle was
    created by the factory before its current counter.
   */
  ghost predicate Valid(s: State) {
    Distinct(s.free + s.used) && forall h :: h in s.free + s.used ==> h < s.next
  }

  /** The state after `_initialize(n)`: the factory is called `n` times (none when `n <= 0`, as with `range(n)`). */
  function Initialize(s: State, n: int): State {
    var k := if n < 0 then 0 else n;
    State(s.free + Range(s.next, k), s.used, s.next + k)
  }

  /** The pool built by the constructor as intended: empty deques, then the eager fill. */
  function Construct(initialConnections: int, first: Handle): State {
    Initialize(State([], [], first), initialConnections)
  }

  /** Whether `_acquire` takes its creation branch and the factory succeeds. */
  predicate Creates(s: State, maxConnections: int, factoryFails: bool) {
    s.free == [] && Size(s) < maxConnections && !factoryFails
  }

  /**
    `_acquire`: reuse the head of `free`; otherwise create a handle when under
    the cap; otherwise raise `PoolIsFullException`. `factoryFails` says whether
    the factory raises when it is called.
   */
  function Acquire(s: State, maxConnections: int, factoryFails: bool): Step<Handle> {
    if |s.free| > 0 then
      Step(Ok(s.free[0]), State(s.free[1..], s.used + [s.free[0]], s.next))
    else if Size(s) < maxConnections then
      if factoryFails then Step(Err(CreationFailed), s)
      else Step(Ok(s.next), State(s.free, s.used + [s.next], s.next + 1))
    else
      Step(Err(PoolIsFull), s)
  }

  /** `_release(conn)`: remove `conn` from `used` (raising when absent), then append it to `free`. */
  function Release(s: State, conn: Handle): Step<()> {
    if conn in s.used then
      Step(Ok(()), State(s.free + [conn], RemoveFirst(s.used, conn), s.next))
    else
      Step(Err(NotInUse), s)
  }

  /** How a `with pool.connection() as conn:` block ended. */
  datatype ScopeResult =
    | AcquireRaised(error: PoolError)   // `_acquire` raised; the block never ran
    | ReleaseRaised(error: PoolError)   // the `finally` release raised, replacing any other outcome
    | BodyRaised(conn: Handle)          // the block raised; the handle was released and the error propagates
    | Completed(conn: Handle)           // the block finished; the handle was released

  datatype ScopeStep = ScopeStep(out: ScopeResult, post: State)

  /**
    `connection()`: acquire, run the block, release in `finally`. The block
    does not use the pool; `bodyRaises` says whether it raises.
   */
  function Connection(s: State, maxConnections: int, factoryFails: bool, bodyRaises: bool): ScopeStep {
    var a := Acquire(s, maxConnections, factoryFails);
    if a.out.Err? then ScopeStep(AcquireRaised(a.out.error), a.post)
    else
      var c := a.out.value;
      var rel := Release(a.post, c);
      if rel.out.Err? then ScopeStep(ReleaseRaised(rel.out.error), rel.post)
      else if bodyRaises then ScopeStep(BodyRaised(c), rel.post)
      else ScopeStep(Completed(c), rel.post)
  }

  /** `k` acquisitions in a row, with a factory that never fails: every outcome, and the final state. */
  datatype Run = Run(outs: seq<Result<Handle, PoolError>>, post: State)

  function AcquireMany(s: State, maxConnections: int, k: nat): Run
    decreases k
  {
    if k == 0 then Run([], s)
    else
      var a := Acquire(s, maxConnections, false);
      var rest := AcquireMany(a.post, maxConnections, k - 1);
      Run([a.out] + rest.outs, rest.post)
  }

  // ---------------------------------------------------------------------
  // The invariant and what it gives
  // ---------------------------------------------------------------------

  /** A valid pool holds no handle in both deques, and neither deque repeats a handle. */
  lemma ValidDisjoint(s: State)
    requires Valid(s)
    ensures forall h :: h in s.free ==> h !in s.used
    ensures Distinct(s.free) && Distinct(s.used)
  {
    assert multiset(s.free + s.used) == multiset(s.free) + multiset(s.used);
    forall h | h in s.free ensures h !in s.used {
      assert multiset(s.free + s.used)[h] <= 1;
    }
    forall h ensures multiset(s.free)[h] <= 1 && multiset(s.used)[h] <= 1 {
      assert multiset(s.free + s.used)[h] <= 1;
    }
  }

  /** In a valid pool, `len(pool)` is the number of different handles it owns. */
  lemma SizeCountsHandles(s: State)
    requires Valid(s)
    ensures Size(s) == |set h: Handle | h in s.free + s.used|
  {
    DistinctCardinality(s.free + s.used);
    assert |s.free + s.used| == Size(s);
  }

  /** The eager fill appends `n` fresh handles to `free`, in creation order, and keeps the invariant. */
  lemma InitializeFills(s: State, n: int)
    requires Valid(s)
    ensures var k := if n < 0 then 0 else n;
      var r := Initialize(s, n);
      Valid(r) && r.used == s.used && r.next == s.next + k && Size(r) == Size(s) + k &&
      r.free == s.free + Range(s.next, k)
  {
    var k := if n < 0 then 0 else n;
    var r := Initialize(s, n);
    RangeDistinct(s.next, k);
    var created := Range(s.next, k);
    assert r.free + r.used == s.free + created + s.used;
    assert multiset(r.free + r.used) == multiset(created) + multiset(s.free + s.used);
    forall h ensures multiset(r.free + r.used)[h] <= 1 {
      if h < s.next {
        assert h !in created;
      } else {
        assert h !in s.free + s.used;
      }
    }
    forall h | h in r.free + r.used ensures h < r.next {
      assert h in s.free + s.used || h in created;
    }
  }

  /** The constructor's pool: `free` holds the `n` created handles in creation order, `used` is empty. */
  lemma ConstructFills(initialConnections: int, first: Handle)
    ensures var k := if initialConnections < 0 then 0 else initialConnections;
      var r := Construct(initialConnections, first);
      Valid(r) && r.free == Range(first, k) && r.used == [] && r.next == first + k && Size(r) == k
  {
    assert Valid(State([], [], first));
    InitializeFills(State([], [], first), initialConnections);
  }

  // ---------------------------------------------------------------------
  // _acquire
  // ---------------------------------------------------------------------

  /**
    Reuse: the head of `free` is returned and moves to the tail of `used`;
    no handle is created or lost, and the returned handle is no longer free.
   */
  lemma AcquireReusesHead(s: State, maxConnections: int, factoryFails: bool)
    requires Valid(s) && s.free != []
    ensures var a := Acquire(s, maxConnections, factoryFails);
      a.out == Ok(s.free[0]) && a.post.free == s.free[1..] && a.post.used == s.used + [s.free[0]] &&
      a.post.next == s.next && Size(a.post) == Size(s) && Handles(a.post) == Handles(s) &&
      s.free[0] !in a.post.free && Valid(a.post)
  {
    var a := Acquire(s, maxConnections, factoryFails);
    assert s.free == [s.free[0]] + s.free[1..];
    assert Handles(a.post) == Handles(s) by {
      assert multiset(s.free) == multiset{s.free[0]} + multiset(s.free[1..]);
    }
    assert a.post.free + a.post.used == s.free[1..] + s.used + [s.free[0]];
    forall h | h in a.post.free + a.post.used ensures h < s.next {
      assert h in s.free[1..] || h in s.used || h == s.free[0];
      assert h in s.free + s.used;
    }
    assert s.free[0] !in s.free[1..] by {
      assert multiset(s.free + s.used)[s.free[0]] <= 1;
      assert multiset(s.free + s.used) == multiset{s.free[0]} + multiset(s.free[1..]) + multiset(s.used);
    }
  }

  /**
    Lazy creation: with `free` empty and the pool under its cap, the factory is
    called once; its fresh handle is appended to `used` and returned, and the
    total grows by exactly one.
   */
  lemma AcquireCreates(s: State, maxConnections: int)
    requires Valid(s) && s.free == [] && Size(s) < maxConnections
    ensures var a := Acquire(s, maxConnections, false);
      a.out == Ok(s.next) && s.next !in Handles(s) &&
      a.post == State([], s.used + [s.next], s.next + 1) &&
      Size(a.post) == Size(s) + 1 && Handles(a.post) == Handles(s) + multiset{s.next} && Valid(a.post)
  {
    var a := Acquire(s, maxConnections, false);
    assert s.next !in s.free + s.used;
    assert a.post.free + a.post.used == (s.free + s.used) + [s.next];
    forall h ensures multiset(a.post.free + a.post.used)[h] <= 1 {
      assert multiset(a.post.free + a.post.used) == multiset(s.free + s.used) + multiset{s.next};
    }
  }

  /**
    `_acquire` raises exactly when `free` is empty and either the pool is at
    its cap (`PoolIsFullException`) or the factory raises; a raising acquire
    changes nothing (no slot is consumed).
   */
  lemma AcquireRaisesUnchanged(s: State, maxConnections: int, factoryFails: bool)
    ensures var a := Acquire(s, maxConnections, factoryFails);
      (a.out == Err(PoolIsFull) <==> s.free == [] && Size(s) >= maxConnections) &&
      (a.out == Err(CreationFailed) <==> s.free == [] && Size(s) < maxConnections && factoryFails) &&
      (a.out.Err? ==> a.post == s)
  {
  }

  /** The total changes only on lazy creation, and then by one; a pool within its cap stays within it. */
  lemma AcquireWithinCap(s: State, maxConnections: int, factoryFails: bool)
    ensures var a := Acquire(s, maxConnections, factoryFails);
      Size(a.post) == Size(s) + (if Creates(s, maxConnections, factoryFails) then 1 else 0) &&
      (Creates(s, maxConnections, factoryFails) ==> Size(s) < maxConnections) &&
      (Size(s) <= maxConnections ==> Size(a.post) <= maxConnections)
  {
  }

  /** Every acquire, whatever branch it takes, keeps the invariant, and a returned handle is checked out and not free. */
  lemma AcquirePreservesValid(s: State, maxConnections: int, factoryFails: bool)
    requires Valid(s)
    ensures var a := Acquire(s, maxConnections, factoryFails);
      Valid(a.post) && (a.out.Ok? ==> a.out.value in a.post.used && a.out.value !in a.post.free)
  {
    var a := Acquire(s, maxConnections, factoryFails);
    if s.free != [] {
      AcquireReusesHead(s, maxConnections, factoryFails);
    } else if Creates(s, maxConnections, factoryFails) {
      AcquireCreates(s, maxConnections);
    }
  }

  // ---------------------------------------------------------------------
  // _release
  // ---------------------------------------------------------------------

  /**
    Releasing a checked-out handle removes it from `used` and appends it to
    the tail of `free`; nothing is created or lost and the invariant holds.
   */
  lemma ReleaseReturnsToTail(s: State, conn: Handle)
    requires Valid(s) && conn in s.used
    ensures var r := Release(s, conn);
      r.out == Ok(()) && r.post.free == s.free + [conn] && r.post.used == RemoveFirst(s.used, conn) &&
      r.post.next == s.next && conn !in r.post.used &&
      Size(r.post) == Size(s) && Handles(r.post) == Handles(s) && Valid(r.post)
  {
    var r := Release(s, conn);
    var u: seq<Handle> := RemoveFirst(s.used, conn);
    ValidDisjoint(s);
    assert multiset(s.used) == multiset(u) + multiset{conn};
    assert multiset(r.post.free + r.post.used) == multiset(s.free) + multiset{conn} + multiset(u);
    assert Handles(r.post) == Handles(s);
    forall h: Handle | h in r.post.free + r.post.used ensures h < s.next {
      if h in u {
        assert multiset(u)[h] > 0;
        assert multiset(s.used)[h] > 0;
      }
      assert h in s.free + s.used;
    }
    assert conn !in u by {
      assert multiset(s.used)[conn] <= 1;
    }
  }

  /** `_release` raises exactly for a handle that is not checked out, and then changes nothing. */
  lemma ReleaseRaisesUnchanged(s: State, conn: Handle)
    ensures var r := Release(s, conn);
      (r.out.Err? <==> conn !in s.used) && (r.out.Err? ==> r.out.error == NotInUse && r.post == s)
  {
  }

  /** Every release, succeeding or not, keeps the invariant and the total. */
  lemma ReleasePreservesValid(s: State, conn: Handle)
    requires Valid(s)
    ensures Valid(Release(s, conn).post) && Size(Release(s, conn).post) == Size(s)
  {
    if conn in s.used {
      ReleaseReturnsToTail(s, conn);
    }
  }

  // ---------------------------------------------------------------------
  // Sequences of operations
  // ---------------------------------------------------------------------

  /** Free handles are handed out first in, first out: `k` acquisitions return the first `k` free handles in order. */
  lemma {:induction false} FifoReuse(s: State, maxConnections: int, k: nat)
    requires k <= |s.free|
    decreases k
    ensures var run := AcquireMany(s, maxConnections, k);
      |run.outs| == k && (forall i :: 0 <= i < k ==> run.outs[i] == Ok(s.free[i])) &&
      run.post == State(s.free[k..], s.used + s.free[..k], s.next)
  {
    if k > 0 {
      var a := Acquire(s, maxConnections, false);
      assert a.post == State(s.free[1..], s.used + [s.free[0]], s.next);
      FifoReuse(a.post, maxConnections, k - 1);
      assert s.free[1..][k - 1..] == s.free[k..];
      assert s.used + [s.free[0]] + s.free[1..][..k - 1] == s.used + s.free[..k];
    }
  }

  /**
    A released handle joins the back of the queue: after it, the handles that
    were already free are handed out first, and then the released one.
   */
  lemma ReleasedHandleComesBackLast(s: State, maxConnections: int, conn: Handle)
    requires Valid(s) && conn in s.used
    ensures var run := AcquireMany(Release(s, conn).post, maxConnections, |s.free| + 1);
      |run.outs| == |s.free| + 1 && run.outs[|s.free|] == Ok(conn) &&
      (forall i :: 0 <= i < |s.free| ==> run.outs[i] == Ok(s.free[i]))
  {
    var r := Release(s, conn).post;
    assert r.free == s.free + [conn];
    FifoReuse(r, maxConnections, |s.free| + 1);
  }

  /**
    Starting within its cap, with a factory that never fails, the pool serves
    exactly `maxConnections - |used|` more acquisitions; after them it is
    full, `free` is empty, and the next acquire raises `PoolIsFullException`.
   */
  lemma {:induction false} ExhaustsAtCapacity(s: State, maxConnections: int, factoryFails: bool)
    requires Size(s) <= maxConnections
    decreases maxConnections - |s.used|
    ensures var k := maxConnections - |s.used|;
      k >= 0 &&
      var run := AcquireMany(s, maxConnections, k);
      |run.outs| == k && (forall i :: 0 <= i < k ==> run.outs[i].Ok?) &&
      run.post.free == [] && Size(run.post) == maxConnections &&
      Acquire(run.post, maxConnections, factoryFails).out == Err(PoolIsFull)
  {
    var k := maxConnections - |s.used|;
    if k > 0 {
      var a := Acquire(s, maxConnections, false);
      assert |a.post.used| == |s.used| + 1 && Size(a.post) <= maxConnections;
      ExhaustsAtCapacity(a.post, maxConnections, factoryFails);
      var rest := AcquireMany(a.post, maxConnections, k - 1);
      assert AcquireMany(s, maxConnections, k).outs == [a.out] + rest.outs;
    }
  }

  /**
    Acquiring and releasing through `connection()` puts the handle back on
    every exit path: `used` ends as it began, the handle used sits at the tail
    of `free` (the free queue rotates by one, or gains the newly created
    handle), and the release never raises. When `_acquire` raises, the block
    does not run and nothing changes.
   */
  lemma ConnectionReleasesOnEveryPath(s: State, maxConnections: int, factoryFails: bool, bodyRaises: bool)
    requires Valid(s)
    ensures var c := Connection(s, maxConnections, factoryFails, bodyRaises);
      !c.out.ReleaseRaised? && Valid(c.post) && c.post.used == s.used &&
      (s.free != [] ==>
        c.out == (if bodyRaises then BodyRaised(s.free[0]) else Completed(s.free[0])) &&
        c.post == State(s.free[1..] + [s.free[0]], s.used, s.next)) &&
      (Creates(s, maxConnections, factoryFails) ==>
        c.out == (if bodyRaises then BodyRaised(s.next) else Completed(s.next)) &&
        c.post == State([s.next], s.used, s.next + 1)) &&
      (s.free == [] && !Creates(s, maxConnections, factoryFails) ==>
        c.out.AcquireRaised? && c.post == s)
  {
    var a := Acquire(s, maxConnections, factoryFails);
    AcquirePreservesValid(s, maxConnections, factoryFails);
    if a.out.Ok? {
      var h := a.out.value;
      ValidDisjoint(s);
      assert h !in s.used by {
        if s.free == [] {
          assert h == s.next;
          assert forall x :: x in s.used ==> x in s.free + s.used;
        } else {
          assert h == s.free[0] && h in s.free;
        }
      }
      RemoveFirstOfAppended(s.used, h);
      ReleasePreservesValid(a.post, h);
    }
  }

  /** The pool with one handle and a cap of one, used twice in a row. */
  lemma SingleHandleScenario()
    ensures var s0 := Construct(1, 0);
      Size(s0) == 1 &&
      var a1 := Acquire(s0, 1, false);
      a1.out == Ok(0) &&
      var a2 := Acquire(a1.post, 1, false);
      a2.out == Err(PoolIsFull) && a2.post == a1.post &&
      var r := Release(a2.post, 0);
      r.out == Ok(()) && Acquire(r.post, 1, false).out == Ok(0)
  {
    assert Range(0, 1) == [0];
  }

  // ---------------------------------------------------------------------
  // The constructor as written
  // ---------------------------------------------------------------------

  /** Exceptions Python itself raises in the constructor as written. */
  datatype PythonError = TypeError

  /**
    `deque(x)` with an integer `x`: the first parameter of `deque` is an
    iterable, and an integer is not one, so the call raises `TypeError`.
   */
  function DequeOfInteger(x: int): Result<seq<Handle>, PythonError> {
    Err(TypeError)
  }

  /** The constructor as written: both deques are built by `deque(max_connections)` before the eager fill. */
  function ConstructAsWritten(initialConnections: int, maxConnections: int, first: Handle): Result<State, PythonError> {
    match DequeOfInteger(maxConnections)
    case Err(e) => Err(e)
    case Ok(free) =>
      match DequeOfInteger(maxConnections)
      case Err(e) => Err(e)
      case Ok(used) => Ok(Initialize(State(free, used, first), initialConnections))
  }

  /** No choice of arguments lets the constructor as written build a pool. */
  lemma ConstructAsWrittenRaises(initialConnections: int, maxConnections: int, first: Handle)
    ensures ConstructAsWritten(initialConnections, maxConnections, first) == Err(TypeError)
  {
  }
}
