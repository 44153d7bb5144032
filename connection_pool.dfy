/**
  `ConnectionPool` as a class whose two deques are sequence fields updated in
  place. Each method is proved to produce the result and the new state that the
  matching function of `PoolModel` gives, and to keep the pool's invariant.
 */
module ConnectionPool {
  import opened Seqs
  import opened PoolModel

  /**
    The factory the pool is given. Each successful call returns a handle never
    returned before (the value of a counter); `fails` says whether the call
    raises instead, in which case it leaves no trace.
   */
  class HandleFactory {
    var next: Handle

    constructor (first: Handle)
      ensures next == first
    {
      next := first;
    }

    method Create(fails: bool) returns (r: Result<Handle, PoolError>)
      modifies this
      ensures r == (if fails then Err(CreationFailed) else Ok(old(next)))
      ensures next == (if fails then old(next) else old(next) + 1)
    {
      if fails {
        r := Err(CreationFailed);
      } else {
        r := Ok(next);
        next := next + 1;
      }
    }
  }

  class Pool {
    var free: seq<Handle>   // `_free_items`: idle handles, head first
    var used: seq<Handle>   // `_used_items`: checked-out handles
    const maxConnections: int
    const factory: HandleFactory

    /** The pool's state as a value. */
    function Model(): State
      reads this, factory
    {
      State(free, used, factory.next)
    }

    ghost predicate Valid()
      reads this, factory
    {
      PoolModel.Valid(Model())
    }

    /** `__init__` with empty deques (the intended construction), followed by `_initialize`. */
    constructor (factory: HandleFactory, initialConnections: int, maxConnections: int)
      modifies factory
      ensures Valid()
      ensures this.factory == factory && this.maxConnections == maxConnections
      ensures Model() == Construct(initialConnections, old(factory.next))
    {
      this.factory := factory;
      this.maxConnections := maxConnections;
      free := [];
      used := [];
      new;
      Initialize(initialConnections);
    }

    /** `_initialize`: call the factory `initialConnections` times, appending each handle to `free`. */
    method Initialize(initialConnections: int)
      requires Valid()
      modifies this, factory
      ensures Valid()
      ensures Model() == PoolModel.Initialize(old(Model()), initialConnections)
    {
      ghost var start := Model();
      var i := 0;
      while i < initialConnections
        invariant initialConnections >= 0 ==> i <= initialConnections
        invariant 0 <= i && (initialConnections < 0 ==> i == 0)
        invariant free == start.free + Range(start.next, i)
        invariant used == start.used && factory.next == start.next + i
      {
        var created := factory.Create(false);
        assert Range(start.next, i + 1) == Range(start.next, i) + [start.next + i];
        free := free + [created.value];
        i := i + 1;
      }
      assert i == if initialConnections < 0 then 0 else initialConnections;
      InitializeFills(start, initialConnections);
    }

    /** `__iter__`: the free handles, in order. */
    method Iter() returns (items: seq<Handle>)
      ensures items == free
    {
      items := free;
    }

    /** `__len__`: the total number of handles the pool owns, free and checked out. */
    method Len() returns (n: nat)
      ensures n == |free| + |used|
    {
      n := |free| + |used|;
    }

    /** The `size` property, which reads `len(self)`. */
    method Size() returns (n: nat)
      ensures n == |free| + |used|
    {
      n := Len();
    }

    /** `_acquire`. `factoryFails` says whether the factory raises if it is called. */
    method Acquire(factoryFails: bool) returns (r: Result<Handle, PoolError>)
      requires Valid()
      modifies this, factory
      ensures Valid()
      ensures Step(r, Model()) == PoolModel.Acquire(old(Model()), maxConnections, factoryFails)
    {
      AcquirePreservesValid(Model(), maxConnections, factoryFails);
      if |free| > 0 {
        var conn := free[0];
        free := free[1..];
        used := used + [conn];
        r := Ok(conn);
      } else {
        var n := Len();
        if n < maxConnections {
          r := factory.Create(factoryFails);
          if r.Ok? {
            used := used + [r.value];
          }
        } else {
          r := Err(PoolIsFull);
        }
      }
    }

    /** `_release`: `deque.remove` on `used` (raising when `conn` is absent), then append to `free`. */
    method Release(conn: Handle) returns (r: Result<(), PoolError>)
      requires Valid()
      modifies this
      ensures Valid()
      ensures Step(r, Model()) == PoolModel.Release(old(Model()), conn)
    {
      ReleasePreservesValid(Model(), conn);
      if conn in used {
        used := RemoveFirst(used, conn);
        free := free + [conn];
        r := Ok(());
      } else {
        r := Err(NotInUse);
      }
    }

    /**
      `connection()`: acquire, run the caller's block, release in `finally`.
      The block does not use the pool; `bodyRaises` says whether it raises.
     */
    method Connection(factoryFails: bool, bodyRaises: bool) returns (r: ScopeResult)
      requires Valid()
      modifies this, factory
      ensures Valid()
      ensures ScopeStep(r, Model()) == PoolModel.Connection(old(Model()), maxConnections, factoryFails, bodyRaises)
    {
      var conn := Acquire(factoryFails);
      if conn.Err? {
        r := AcquireRaised(conn.error);
        return;
      }
      // the caller's block runs here
      var released := Release(conn.value);
      if released.Err? {
        r := ReleaseRaised(released.error);
      } else if bodyRaises {
        r := BodyRaised(conn.value);
      } else {
        r := Completed(conn.value);
      }
    }
  }

  /** Two handles created eagerly are handed out in creation order, then the pool is full. */
  method FifoClient() {
    var factory := new HandleFactory(0);
    var pool := new Pool(factory, 2, 2);
    assert Range(0, 2) == [0, 1];
    var a := pool.Acquire(false);
    assert a == Ok(0);
    var b := pool.Acquire(false);
    assert b == Ok(1);
    var c := pool.Acquire(false);
    assert c == Err(PoolIsFull);
    var r := pool.Release(0);
    assert r == Ok(());
    var d := pool.Acquire(false);
    assert d == Ok(0);
  }
}
