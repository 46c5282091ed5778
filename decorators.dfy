/**
 * The function wrappers (decorators) of the day-3 tutorial.
 *
 * A decorated Python function is modelled over one fixed arity, int -> int.
 * Its observable side effect (the wrapped functions print) is modelled as a
 * log of the arguments it was called with, held by a `Callable` object, so
 * "the wrapper calls func exactly once with the same argument" becomes "the
 * log grows by exactly that argument". Calling the wrapper that a decorator
 * returns is modelled as a method taking the wrapped `Callable`.
 */
module Decorators {
  import opened Common
  import Iterators

  /** An undecorated function: its result function and the log of its calls. */
  class Callable {
    const f: int -> int
    var log: seq<int>

    constructor (f: int -> int)
      ensures this.f == f && log == []
    {
      this.f := f;
      log := [];
    }

    /** One call: the result of `f`, and the argument appended to the log. */
    method Call(x: int) returns (r: int)
      modifies this
      ensures r == f(x) && log == old(log) + [x]
    {
      r := f(x);
      log := log + [x];
    }
  }

  // ---------------------------------------------------------------------------
  // Pass-through wrappers
  // ---------------------------------------------------------------------------

  /** The wrapper of `my_decorator`: calls func once and returns nothing. */
  method MyDecorator(func: Callable, x: int)
    modifies func
    ensures func.log == old(func.log) + [x]
  {
    var _ := func.Call(x);
  }

  /** The wrapper of `decorator_with_args`: calls func once, returns its result unchanged. */
  method DecoratorWithArgs(func: Callable, x: int) returns (result: int)
    modifies func
    ensures result == func.f(x)
    ensures func.log == old(func.log) + [x]
  {
    result := func.Call(x);
  }

  /** The wrapper of `logging_decorator`: calls func once, returns its result unchanged. */
  method LoggingDecorator(func: Callable, x: int) returns (result: int)
    modifies func
    ensures result == func.f(x)
    ensures func.log == old(func.log) + [x]
  {
    result := func.Call(x);
  }

  /** `MyClassDecorator`: an object holding func whose call passes through to it. */
  class ClassDecorator {
    const func: Callable

    constructor (func: Callable)
      ensures this.func == func
    {
      this.func := func;
    }

    /** `__call__`: calls func once and returns its result unchanged. */
    method Call(x: int) returns (r: int)
      modifies func
      ensures r == func.f(x)
      ensures func.log == old(func.log) + [x]
    {
      r := func.Call(x);
    }
  }

  // ---------------------------------------------------------------------------
  // authenticate
  // ---------------------------------------------------------------------------

  /** The exception `authenticate`'s wrapper raises. */
  datatype AuthError = PermissionError(message: string)

  /**
   * The wrapper of `authenticate`, with the authentication flag as a
   * parameter: PermissionError and no call when it is false, otherwise one
   * call whose result is passed through.
   */
  method Authenticate(authenticated: bool, func: Callable, x: int) returns (r: Result<int, AuthError>)
    modifies func
    ensures !authenticated ==> r == Err(PermissionError("Not authenticated")) && func.log == old(func.log)
    ensures authenticated ==> r == Ok(func.f(x)) && func.log == old(func.log) + [x]
  {
    if !authenticated {
      return Err(PermissionError("Not authenticated"));
    }
    var v := func.Call(x);
    r := Ok(v);
  }

  // ---------------------------------------------------------------------------
  // repeat(n)
  // ---------------------------------------------------------------------------

  /** n copies of x; none when n <= 0. */
  function Copies(x: int, n: int): (r: seq<int>)
    ensures |r| == if n > 0 then n else 0
    ensures forall k :: 0 <= k < |r| ==> r[k] == x
    decreases n
  {
    if n <= 0 then [] else Copies(x, n - 1) + [x]
  }

  /**
   * The wrapper of `repeat(n)`: calls func n times with the same argument
   * (no time when n <= 0) and returns nothing, whatever func returns.
   */
  method Repeat(n: int, func: Callable, x: int)
    modifies func
    ensures func.log == old(func.log) + Copies(x, n)
  {
    var i := 0;
    while i < n
      invariant 0 <= i && (i <= n || i == 0)
      invariant func.log == old(func.log) + Copies(x, i)
    {
      var _ := func.Call(x);
      i := i + 1;
    }
  }

  /** The usage example: `say_hi` decorated with repeat(3) runs three times per call. */
  method SayHiThreeTimes(sayHi: int -> int) returns (calls: seq<int>)
    ensures calls == [0, 0, 0]
  {
    var func := new Callable(sayHi);
    Repeat(3, func, 0);
    calls := func.log;
  }

  // ---------------------------------------------------------------------------
  // CallCounter
  // ---------------------------------------------------------------------------

  /** `CallCounter`: counts the calls made through it. */
  class CallCounter {
    const func: Callable
    var count: nat

    constructor (func: Callable)
      ensures this.func == func && count == 0
    {
      this.func := func;
      count := 0;
    }

    /** `__call__`: one more call counted, func called once, its result passed through. */
    method Call(x: int) returns (r: int)
      modifies this, func
      ensures count == old(count) + 1
      ensures r == func.f(x)
      ensures func.log == old(func.log) + [x]
    {
      count := count + 1;
      r := func.Call(x);
    }
  }

  /** The usage example: two calls of `test_func` leave its counter at 2. */
  method TestFuncTwice(testFunc: int -> int) returns (count: nat, calls: seq<int>)
    ensures count == 2 && calls == [0, 0]
  {
    var func := new Callable(testFunc);
    var counter := new CallCounter(func);
    var first := counter.Call(0);
    var second := counter.Call(0);
    count, calls := counter.count, func.log;
  }

  // ---------------------------------------------------------------------------
  // memoize
  // ---------------------------------------------------------------------------

  /** The elements of a sequence are pairwise different. */
  predicate Distinct(s: seq<int>)
  {
    forall i, j :: 0 <= i < j < |s| ==> s[i] != s[j]
  }

  /** Appending a new element keeps a sequence free of repetitions. */
  lemma DistinctAppend(s: seq<int>, x: int)
    requires Distinct(s) && x !in s
    ensures Distinct(s + [x])
  {
  }

  /**
   * The wrapper of `memoize(func)` with its closure dictionary `cache`.
   * `computed` lists, in order, the arguments for which func was actually
   * called.
   */
  class Memoize {
    const func: Callable
    var cache: map<int, int>
    ghost var computed: seq<int>

    /**
     * Every entry is func applied to its key, and func was called exactly
     * once for each key and for nothing else.
     */
    ghost predicate Valid()
      reads this
    {
      (forall k :: k in cache ==> cache[k] == func.f(k)) &&
      Distinct(computed) &&
      (forall k :: k in cache <==> k in computed)
    }

    constructor (func: Callable)
      ensures this.func == func && cache == map[] && computed == [] && Valid()
    {
      this.func := func;
      cache := map[];
      computed := [];
    }

    /**
     * A call of the wrapper: func's result for x; func is called only when x
     * is not cached yet, and the only change to the cache is the new entry.
     */
    method Call(x: int) returns (r: int)
      requires Valid()
      modifies this, func
      ensures Valid()
      ensures r == func.f(x)
      ensures cache == old(cache)[x := r]
      ensures x in old(cache) ==> cache == old(cache)
      ensures computed == old(computed) + (if x in old(cache) then [] else [x])
      ensures func.log == old(func.log) + (if x in old(cache) then [] else [x])
    {
      if x !in cache {
        var v := func.Call(x);
        DistinctAppend(computed, x);
        cache := cache[x := v];
        computed := computed + [x];
      }
      r := cache[x];
    }
  }

  // ---------------------------------------------------------------------------
  // The memoized fibonacci
  // ---------------------------------------------------------------------------

  /** The undecorated `fibonacci`: n below 2 is returned as is. */
  function FibonacciValue(n: int): (r: int)
    ensures r >= 0 <==> n >= 0
    decreases n
  {
    if n < 2 then n else FibonacciValue(n - 1) + FibonacciValue(n - 2)
  }

  /**
   * `fibonacci` decorated with `memoize`: its recursive calls go through the
   * same cache. `computed` lists the arguments for which the undecorated
   * body ran.
   *
   * The cache logic of `Memoize.Call` is repeated here rather than reused:
   * the wrapped function is the decorated `fibonacci` itself, whose body
   * calls back into the wrapper, so it cannot be a fixed `Callable` given
   * to a `Memoize` object beforehand.
   */
  class MemoizedFibonacci {
    var cache: map<int, int>
    ghost var computed: seq<int>

    /**
     * Every entry is the Fibonacci value of its key; a cached n >= 2 comes
     * with every k in [0, n]; the body ran once per key.
     */
    ghost predicate Valid()
      reads this
    {
      (forall k :: k in cache ==> cache[k] == FibonacciValue(k)) &&
      (forall n, k :: n in cache && 2 <= n && 0 <= k <= n ==> k in cache) &&
      Distinct(computed) &&
      (forall k :: k in cache <==> k in computed)
    }

    constructor ()
      ensures cache == map[] && computed == [] && Valid()
    {
      cache := map[];
      computed := [];
    }

    /**
     * A call of `fibonacci(n)`: its value, with n cached afterwards. Entries
     * already cached stay; the new ones are n and, from n >= 2 on, every k
     * in [0, n]. A cached n is answered without running the body.
     */
    method Fibonacci(n: int) returns (r: int)
      requires Valid()
      modifies this
      ensures Valid()
      ensures r == FibonacciValue(n)
      ensures n in cache
      ensures forall k :: k in old(cache) ==> k in cache && cache[k] == old(cache)[k]
      ensures forall k :: k in cache ==> k in old(cache) || k == n || (n >= 2 && 0 <= k < n)
      ensures n >= 2 ==> forall k :: 0 <= k <= n ==> k in cache
      ensures n in old(cache) ==> cache == old(cache) && computed == old(computed)
      decreases n
    {
      if n in cache {
        return cache[n];
      }
      if n < 2 {
        r := n;
      } else {
        var a := Fibonacci(n - 1);
        var b := Fibonacci(n - 2);
        r := a + b;
      }
      Store(n, r);
    }

    /** `cache[n] = value` for an n not cached yet, once the body has run for n. */
    method Store(n: int, value: int)
      requires Valid() && n !in cache && value == FibonacciValue(n)
      requires n >= 2 ==> forall k :: 0 <= k < n ==> k in cache
      modifies this
      ensures Valid()
      ensures cache == old(cache)[n := value] && computed == old(computed) + [n]
    {
      DistinctAppend(computed, n);
      cache := cache[n := value];
      computed := computed + [n];
    }
  }

  /** For n >= 0 the memoized fibonacci computes the Fibonacci numbers F(n). */
  lemma {:induction false} FibonacciValueIsFib(n: nat)
    ensures FibonacciValue(n) == Iterators.Fib(n)
  {
    if n >= 2 {
      FibonacciValueIsFib(n - 1);
      FibonacciValueIsFib(n - 2);
    }
  }

  /** The Fibonacci value of 10 is 55. */
  lemma FibonacciValueOfTen()
    ensures FibonacciValue(10) == 55
  {
    assert FibonacciValue(5) == 5;
  }

  /** A sequence without repetitions has as many distinct elements as entries. */
  lemma {:induction false} DistinctCount(s: seq<int>)
    requires Distinct(s)
    ensures |set x | x in s| == |s|
  {
    if s != [] {
      var last := s[|s| - 1];
      var init := s[..|s| - 1];
      DistinctCount(init);
      assert (set x | x in s) == (set x | x in init) + {last};
      assert last !in init;
    }
  }

  /** The set [0, n), of n elements. */
  function Below(n: nat): (r: set<int>)
    ensures forall k :: k in r <==> 0 <= k < n
    ensures |r| == n
  {
    if n == 0 then {} else Below(n - 1) + {n - 1}
  }

  /** After fibonacci(n) on an empty cache, n >= 2, the body ran for exactly 0..n. */
  lemma ComputedArguments(cache: map<int, int>, computed: seq<int>, n: nat)
    requires forall k :: k in cache <==> k in computed
    requires forall k :: k in cache ==> k == n || 0 <= k <= n
    requires forall k :: 0 <= k <= n ==> k in cache
    ensures (set x | x in computed) == Below(n + 1)
  {
    var arguments := set x | x in computed;
    forall x ensures x in arguments <==> x in Below(n + 1) {
      assert x in arguments <==> x in cache;
    }
  }

  /**
   * The usage example, called twice: fibonacci(10) is 55 both times, and
   * the undecorated body runs 11 times in all, once per argument 0..10.
   */
  method FibonacciTenTwice() returns (first: int, second: int, ghost bodyRuns: nat)
    ensures first == 55 && second == 55 && bodyRuns == 11
  {
    var fib := new MemoizedFibonacci();
    first := fib.Fibonacci(10);
    second := fib.Fibonacci(10);
    FibonacciValueOfTen();
    ComputedArguments(fib.cache, fib.computed, 10);
    DistinctCount(fib.computed);
    bodyRuns := |fib.computed|;
  }
}
