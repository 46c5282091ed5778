/**
 * Iterators and generators of the day-2 tutorial: the `MyRange` and
 * `StringIterator` classes (explicit state machines whose `Next` is
 * Python's `__next__`), the `fibonacci` and `primes` generators with the
 * `is_prime` trial division, and the two generator expressions.
 *
 * A generator is modelled as a method that returns, in order, every value
 * the generator would yield; `StopIteration` is `None` from `Next`.
 */
module Iterators {
  import opened Common
  import opened Strings

  // ---------------------------------------------------------------------------
  // MyRange
  // ---------------------------------------------------------------------------

  /** The integers lo, lo + 1, ..., hi - 1 in increasing order; empty when lo >= hi. */
  function Interval(lo: int, hi: int): (r: seq<int>)
    ensures |r| == if lo < hi then hi - lo else 0
    ensures forall k :: 0 <= k < |r| ==> r[k] == lo + k
    decreases hi - lo
  {
    if lo >= hi then [] else [lo] + Interval(lo + 1, hi)
  }

  /** An interval splits at any point in between. */
  lemma {:induction false} IntervalSplit(lo: int, mid: int, hi: int)
    requires lo <= mid <= hi
    ensures Interval(lo, hi) == Interval(lo, mid) + Interval(mid, hi)
  {
    var whole, left, right := Interval(lo, hi), Interval(lo, mid), Interval(mid, hi);
    assert |whole| == |left| + |right|;
    forall k | 0 <= k < |whole| ensures whole[k] == (left + right)[k] {
      if k >= |left| {
        assert (left + right)[k] == right[k - |left|];
      }
    }
  }

  /** A counter over [start, end): `Next` hands out `current` and advances it. */
  class MyRange {
    const start: int
    const end: int
    var current: int

    /** `current` never leaves [start, max(start, end)]. */
    ghost predicate Valid()
      reads this
    {
      start <= current && (current <= end || current == start)
    }

    /** The values `Next` has returned so far. */
    ghost function Yielded(): seq<int>
      reads this
    {
      Interval(start, current)
    }

    /** The values `Next` will still return. */
    ghost function Remaining(): seq<int>
      reads this
    {
      Interval(current, end)
    }

    /** What has been returned and what is still to come make up the whole range. */
    lemma Progress()
      requires Valid()
      ensures Yielded() + Remaining() == Interval(start, end)
    {
      if current <= end {
        IntervalSplit(start, current, end);
      }
    }

    constructor (start: int, end: int)
      ensures this.start == start && this.end == end && current == start
      ensures Valid() && Yielded() == [] && Remaining() == Interval(start, end)
    {
      this.start := start;
      this.end := end;
      current := start;
    }

    /** `__next__`: the current value and one step forward, or StopIteration. */
    method Next() returns (value: Option<int>)
      requires Valid()
      modifies this
      ensures Valid()
      ensures old(current) < end ==> value == Some(old(current)) && current == old(current) + 1
      ensures old(current) >= end ==> value == None && current == old(current)
      ensures value.None? <==> old(Remaining()) == []
      ensures old(Remaining()) == if value.Some? then [value.value] + Remaining() else Remaining()
    {
      if current >= end {
        return None;
      }
      value := Some(current);
      current := current + 1;
      assert old(Remaining()) == [old(current)] + Remaining();
    }

    /** A `for` loop over the iterator: every remaining value, then exhaustion. */
    method Drain() returns (values: seq<int>)
      requires Valid()
      modifies this
      ensures Valid()
      ensures values == old(Remaining()) && Remaining() == []
    {
      values := [];
      while true
        invariant Valid()
        invariant old(Remaining()) == values + Remaining()
        decreases end - current
      {
        var next := Next();
        if next.None? {
          return;
        }
        values := values + [next.value];
      }
    }
  }

  /** `list(MyRange(start, end))`: start, start + 1, ..., end - 1, or nothing when start >= end. */
  method RangeValues(start: int, end: int) returns (values: seq<int>)
    ensures |values| == if start < end then end - start else 0
    ensures forall k :: 0 <= k < |values| ==> values[k] == start + k
  {
    var range := new MyRange(start, end);
    values := range.Drain();
  }

  /** The usage example: MyRange(0, 5) yields 0, 1, 2, 3, 4. */
  method RangeZeroToFive() returns (values: seq<int>)
    ensures values == [0, 1, 2, 3, 4]
  {
    values := RangeValues(0, 5);
  }

  // ---------------------------------------------------------------------------
  // fibonacci generator
  // ---------------------------------------------------------------------------

  /** The Fibonacci numbers: F(0) = 0, F(1) = 1, F(k + 2) = F(k) + F(k + 1). */
  function Fib(k: nat): nat
  {
    if k < 2 then k else Fib(k - 2) + Fib(k - 1)
  }

  /** `fibonacci(n)`: the first n Fibonacci numbers, none when n <= 0. */
  method Fibonacci(n: int) returns (values: seq<nat>)
    ensures |values| == if n > 0 then n else 0
    ensures forall k :: 0 <= k < |values| ==> values[k] == Fib(k)
  {
    var a, b := 0, 1;
    values := [];
    var i := 0;
    while i < n
      invariant 0 <= i && (i <= n || i == 0)
      invariant |values| == i
      invariant forall k :: 0 <= k < i ==> values[k] == Fib(k)
      invariant a == Fib(i) && b == Fib(i + 1)
    {
      assert Fib(i + 2) == a + b;
      assert forall k :: 0 <= k < i ==> (values + [a])[k] == values[k];
      values := values + [a];
      a, b := b, a + b;
      i := i + 1;
    }
  }

  /** The usage example: fibonacci(10) yields 0, 1, 1, 2, 3, 5, 8, 13, 21, 34. */
  method FibonacciTen() returns (values: seq<nat>)
    ensures values == [0, 1, 1, 2, 3, 5, 8, 13, 21, 34]
  {
    values := Fibonacci(10);
    var expected: seq<nat> := [0, 1, 1, 2, 3, 5, 8, 13, 21, 34];
    forall k | 0 <= k < 10 ensures values[k] == expected[k] {
      FibTable(k);
    }
    assert values == expected;
  }

  /** The first ten Fibonacci numbers, one by one. */
  lemma FibTable(k: nat)
    requires k < 10
    ensures Fib(k) == [0, 1, 1, 2, 3, 5, 8, 13, 21, 34][k]
  {
    assert Fib(2) == 1 && Fib(3) == 2 && Fib(4) == 3 && Fib(5) == 5;
    assert Fib(6) == 8 && Fib(7) == 13 && Fib(8) == 21 && Fib(9) == 34;
  }

  // ---------------------------------------------------------------------------
  // Generator expressions
  // ---------------------------------------------------------------------------

  /** `(x for x in xs if x % 2 == 0)`: the even elements, in input order. */
  function Evens(xs: seq<int>): (r: seq<int>)
    ensures forall x :: x in r <==> x in xs && x % 2 == 0
  {
    if xs == [] then []
    else (if xs[0] % 2 == 0 then [xs[0]] else []) + Evens(xs[1..])
  }

  /** The filter works element by element, so it keeps the input order. */
  lemma {:induction false} EvensAppend(a: seq<int>, b: seq<int>)
    ensures Evens(a + b) == Evens(a) + Evens(b)
  {
    if a == [] {
      assert a + b == b;
    } else {
      var first := if a[0] % 2 == 0 then [a[0]] else [];
      assert (a + b)[0] == a[0];
      assert (a + b)[1..] == a[1..] + b;
      EvensAppend(a[1..], b);
      calc {
        Evens(a + b);
        first + Evens(a[1..] + b);
        first + (Evens(a[1..]) + Evens(b));
        (first + Evens(a[1..])) + Evens(b);
        Evens(a) + Evens(b);
      }
    }
  }

  /** Each even value is kept as often as it occurs, each odd value never. */
  lemma {:induction false} EvensMultiplicity(xs: seq<int>, x: int)
    ensures multiset(Evens(xs))[x] == if x % 2 == 0 then multiset(xs)[x] else 0
  {
    if xs != [] {
      EvensMultiplicity(xs[1..], x);
      assert xs == [xs[0]] + xs[1..];
    }
  }

  /** The example: the even numbers of [1, 2, 3, 4, 5, 6] are [2, 4, 6]. */
  lemma EvensExample()
    ensures Evens([1, 2, 3, 4, 5, 6]) == [2, 4, 6]
  {
    assert Evens([6]) == [6] by { assert [6][1..] == []; }
    assert Evens([5, 6]) == [6] by { assert [5, 6][1..] == [6]; }
    assert Evens([4, 5, 6]) == [4, 6] by { assert [4, 5, 6][1..] == [5, 6]; }
    assert Evens([3, 4, 5, 6]) == [4, 6] by { assert [3, 4, 5, 6][1..] == [4, 5, 6]; }
    assert Evens([2, 3, 4, 5, 6]) == [2, 4, 6] by { assert [2, 3, 4, 5, 6][1..] == [3, 4, 5, 6]; }
    assert [1, 2, 3, 4, 5, 6][1..] == [2, 3, 4, 5, 6];
  }

  /** `(x**2 for x in xs)`: the squares of the elements, in order. */
  function Squares(xs: seq<int>): (r: seq<int>)
    ensures |r| == |xs|
    ensures forall k :: 0 <= k < |xs| ==> r[k] == xs[k] * xs[k]
  {
    if xs == [] then [] else [xs[0] * xs[0]] + Squares(xs[1..])
  }

  // ---------------------------------------------------------------------------
  // primes generator and is_prime
  // ---------------------------------------------------------------------------

  /** `d` is a positive divisor of `n`. */
  predicate Divides(d: int, n: int)
  {
    d > 0 && n % d == 0
  }

  /** `n` is a prime number: at least 2, with no divisor strictly between 1 and n. */
  predicate IsPrimeNumber(n: int)
  {
    n >= 2 && forall d :: 2 <= d < n ==> !Divides(d, n)
  }

  /** A divisor of num strictly between 1 and num comes with one whose square is at most num. */
  lemma SmallDivisor(num: int, d: int) returns (e: int)
    requires 2 <= d < num && Divides(d, num)
    ensures 2 <= e <= d && e * e <= num && Divides(e, num)
  {
    if d * d <= num {
      return d;
    }
    e := num / d;
    Cofactor(num, d, e);
  }

  /** The cofactor of a divisor d of num with d * d > num is a smaller divisor. */
  lemma Cofactor(num: int, d: int, e: int)
    requires 2 <= d < num && num % d == 0 && num < d * d && e == num / d
    ensures 2 <= e <= d && e * e <= num && Divides(e, num)
  {
    assert num == d * e;
    MulMonotone(e, 1, d);
    MulMonotone(d, e, d);
    MulMonotone(e, d, e);
    MultipleMod(e, d);
  }

  /** Multiplying by a non-negative number keeps the order: a <= b ==> a * c <= b * c. */
  lemma MulMonotone(a: int, b: int, c: int)
    requires 0 <= c
    ensures a <= b ==> a * c <= b * c
  {
    if a <= b {
      assert b * c - a * c == (b - a) * c;
    }
  }

  /** A multiple of e leaves no remainder when divided by e. */
  lemma MultipleMod(e: int, d: int)
    requires e > 0
    ensures (e * d) % e == 0 && (d * e) % e == 0
  {
    assert e * d == d * e;
    RemainderUnique(d * e, e, d, 0);
  }

  /** Euclidean division is unique: n == q * e + r with 0 <= r < e fixes n % e == r. */
  lemma RemainderUnique(n: int, e: int, q: int, r: int)
    requires e > 0 && n == q * e + r && 0 <= r < e
    ensures n % e == r
  {
    var quotient, remainder := n / e, n % e;
    assert n == quotient * e + remainder;
    assert (q - quotient) * e == remainder - r;
    MulMonotone(1, q - quotient, e);
    MulMonotone(q - quotient, -1, e);
  }

  /** Squares of non-negative numbers are ordered like the numbers. */
  lemma SquareBelow(e: int, i: int)
    requires 0 <= e && 0 <= i && e * e < i * i
    ensures e < i
  {
    MulMonotone(i, e, e);
    MulMonotone(i, e, i);
  }

  /** No divisor below i, and i * i > num: then num is prime. */
  lemma TrialDivisionSuffices(num: int, i: int)
    requires num >= 2 && 2 <= i && num < i * i
    requires forall d :: 2 <= d < i ==> !Divides(d, num)
    ensures IsPrimeNumber(num)
  {
    forall d | 2 <= d < num ensures !Divides(d, num) {
      if Divides(d, num) {
        var e := SmallDivisor(num, d);
        SquareBelow(e, i);
        assert false;
      }
    }
  }

  /**
   * Trial division up to the square root decides primality: for num >= 2,
   * num is prime exactly when no i with 2 <= i and i * i <= num divides it.
   */
  lemma TrialDivision(num: int)
    ensures IsPrimeNumber(num) <==>
              num >= 2 && forall i :: 2 <= i && i * i <= num ==> !Divides(i, num)
  {
    if num >= 2 && !IsPrimeNumber(num) {
      var d :| 2 <= d < num && Divides(d, num);
      var e := SmallDivisor(num, d);
    }
    if IsPrimeNumber(num) {
      forall i | 2 <= i && i * i <= num ensures !Divides(i, num) {
        assert i < num by {
          assert i < i * i;
        }
      }
    }
  }

  /** `is_prime(num)`: trial division by 2, 3, ... while i * i <= num. */
  method IsPrime(num: int) returns (prime: bool)
    ensures prime <==> IsPrimeNumber(num)
  {
    if num < 2 {
      return false;
    }
    var i := 2;
    while i * i <= num
      invariant 2 <= i
      invariant forall d :: 2 <= d < i ==> !Divides(d, num)
      decreases num - i
    {
      assert i < num by {
        assert i < i * i;
      }
      if num % i == 0 {
        assert Divides(i, num);
        return false;
      }
      i := i + 1;
    }
    TrialDivisionSuffices(num, i);
    return true;
  }

  /** The primes in [2, n], each candidate taken in increasing order. */
  function PrimesUpTo(n: int): (r: seq<int>)
    ensures forall k :: 0 <= k < |r| ==> 2 <= r[k] <= n
    ensures forall i, j :: 0 <= i < j < |r| ==> r[i] < r[j]
    decreases n
  {
    if n < 2 then []
    else PrimesUpTo(n - 1) + (if IsPrimeNumber(n) then [n] else [])
  }

  /** PrimesUpTo(n) holds every prime in [2, n] and nothing else. */
  lemma {:induction false} PrimesUpToMembers(n: int)
    ensures forall p :: p in PrimesUpTo(n) <==> 2 <= p <= n && IsPrimeNumber(p)
    decreases n
  {
    if n >= 2 {
      PrimesUpToMembers(n - 1);
    }
  }

  /** `primes(n)`: every prime in [2, n], in strictly increasing order; nothing when n < 2. */
  method Primes(n: int) returns (ps: seq<int>)
    ensures ps == PrimesUpTo(n)
    ensures forall p :: p in ps <==> 2 <= p <= n && IsPrimeNumber(p)
    ensures forall i, j :: 0 <= i < j < |ps| ==> ps[i] < ps[j]
  {
    ps := [];
    var i := 2;
    while i <= n
      invariant 2 <= i && (i <= n + 1 || i == 2)
      invariant ps == PrimesUpTo(i - 1)
    {
      var prime := IsPrime(i);
      if prime {
        ps := ps + [i];
      }
      i := i + 1;
    }
    PrimesUpToMembers(n);
  }

  /** No d in [lo, hi) divides n (evaluated one candidate at a time). */
  predicate NoDivisorBetween(n: int, lo: int, hi: int)
    decreases hi - lo
  {
    lo >= hi || (!Divides(lo, n) && NoDivisorBetween(n, lo + 1, hi))
  }

  /** A small prime shown by trial division up to r, where r * r > p. */
  lemma {:induction false} PrimeByTrial(p: int, r: int)
    requires p >= 2 && 2 <= r && p < r * r && NoDivisorBetween(p, 2, r)
    ensures IsPrimeNumber(p)
  {
    NoDivisorBetweenSound(p, 2, r);
    TrialDivisionSuffices(p, r);
  }

  lemma {:induction false} NoDivisorBetweenSound(n: int, lo: int, hi: int)
    requires NoDivisorBetween(n, lo, hi)
    ensures forall d :: lo <= d < hi ==> !Divides(d, n)
    decreases hi - lo
  {
    if lo < hi {
      NoDivisorBetweenSound(n, lo + 1, hi);
    }
  }

  /** One unfolding of PrimesUpTo, used by the worked examples below. */
  lemma PrimesStep(n: int)
    requires n >= 2
    ensures PrimesUpTo(n) == PrimesUpTo(n - 1) + (if IsPrimeNumber(n) then [n] else [])
  {
  }

  /** The primes up to 4. */
  lemma PrimesUpToFour()
    ensures PrimesUpTo(4) == [2, 3]
  {
    PrimeByTrial(2, 2);
    PrimeByTrial(3, 2);
    assert Divides(2, 4);
    PrimesStep(2);
    PrimesStep(3);
    PrimesStep(4);
  }

  /** The primes up to 8. */
  lemma PrimesUpToEight()
    ensures PrimesUpTo(8) == [2, 3, 5, 7]
  {
    PrimesUpToFour();
    PrimeByTrial(5, 3);
    PrimeByTrial(7, 3);
    assert Divides(2, 6) && Divides(2, 8);
    PrimesStep(5);
    PrimesStep(6);
    PrimesStep(7);
    PrimesStep(8);
  }

  /** The primes up to 12. */
  lemma PrimesUpToTwelve()
    ensures PrimesUpTo(12) == [2, 3, 5, 7, 11]
  {
    PrimesUpToEight();
    PrimeByTrial(11, 4);
    assert Divides(3, 9) && Divides(2, 10) && Divides(2, 12);
    PrimesStep(9);
    PrimesStep(10);
    PrimesStep(11);
    PrimesStep(12);
  }

  /** The primes up to 16. */
  lemma PrimesUpToSixteen()
    ensures PrimesUpTo(16) == [2, 3, 5, 7, 11, 13]
  {
    PrimesUpToTwelve();
    PrimeByTrial(13, 4);
    assert Divides(2, 14) && Divides(3, 15) && Divides(2, 16);
    PrimesStep(13);
    PrimesStep(14);
    PrimesStep(15);
    PrimesStep(16);
  }

  /** The primes up to 20. */
  lemma PrimesUpToTwenty()
    ensures PrimesUpTo(20) == [2, 3, 5, 7, 11, 13, 17, 19]
  {
    PrimesUpToSixteen();
    PrimeByTrial(17, 5);
    PrimeByTrial(19, 5);
    assert Divides(2, 18) && Divides(2, 20);
    PrimesStep(17);
    PrimesStep(18);
    PrimesStep(19);
    PrimesStep(20);
  }

  /** The usage example: primes(20) yields 2, 3, 5, 7, 11, 13, 17, 19. */
  method PrimesToTwenty() returns (ps: seq<int>)
    ensures ps == [2, 3, 5, 7, 11, 13, 17, 19]
  {
    ps := Primes(20);
    PrimesUpToTwenty();
  }

  // ---------------------------------------------------------------------------
  // StringIterator
  // ---------------------------------------------------------------------------

  /** Walks the pieces of `text.split('\n')`, one per call of `Next`. */
  class StringIterator {
    const lines: seq<string>
    var index: nat

    ghost predicate Valid()
      reads this
    {
      index <= |lines|
    }

    constructor (text: string)
      ensures lines == Split(text, "\n") && index == 0 && Valid()
    {
      lines := Split(text, "\n");
      index := 0;
    }

    /** `__next__`: the line at `index` and one step forward, or StopIteration. */
    method Next() returns (line: Option<string>)
      requires Valid()
      modifies this
      ensures Valid()
      ensures old(index) < |lines| ==> line == Some(lines[old(index)]) && index == old(index) + 1
      ensures old(index) >= |lines| ==> line == None && index == old(index)
    {
      if index >= |lines| {
        return None;
      }
      line := Some(lines[index]);
      index := index + 1;
    }

    /** A `for` loop over the iterator: every line not yet returned, then exhaustion. */
    method Drain() returns (rest: seq<string>)
      requires Valid()
      modifies this
      ensures Valid()
      ensures rest == old(lines[index..]) && index == |lines|
    {
      rest := [];
      while true
        invariant Valid()
        invariant old(index) <= index
        invariant rest == lines[old(index)..index]
        decreases |lines| - index
      {
        var line := Next();
        if line.None? {
          return;
        }
        rest := rest + [line.value];
      }
    }
  }

  /**
   * `list(StringIterator(text))`: the lines of `text`; joined with '\n' they
   * give back the text, there is always at least one, and text without a
   * newline (the empty text included) is a single line.
   */
  method ReadLines(text: string) returns (lines: seq<string>)
    ensures lines == Split(text, "\n")
    ensures |lines| >= 1 && Join(lines, "\n") == text
    ensures forall k :: 0 <= k < |lines| ==> '\n' !in lines[k]
    ensures '\n' !in text ==> lines == [text]
  {
    var iter := new StringIterator(text);
    lines := iter.Drain();
    JoinSplit(text, "\n");
    SplitPiecesClean(text, "\n");
    forall k | 0 <= k < |lines| ensures '\n' !in lines[k] {
      NewlineFree(lines[k]);
    }
    if '\n' !in text {
      NewlineFree(text);
    }
  }

  /** A string contains the one-character separator "\n" exactly when '\n' is one of its characters. */
  lemma NewlineFree(s: string)
    ensures NoOccurrence(s, "\n") <==> '\n' !in s
  {
    if '\n' in s {
      var j :| 0 <= j < |s| && s[j] == '\n';
      assert s[j..j + 1] == "\n";
      assert OccursAt(s, "\n", j);
    }
    if !NoOccurrence(s, "\n") {
      var j :| 0 <= j <= |s| && OccursAt(s, "\n", j);
      assert s[j] == s[j..j + 1][0];
    }
  }

  /**
   * The usage example: a text of three lines joined by "\n" (such as
   * "Line 1\nLine 2\nLine 3") yields those three lines.
   */
  method ThreeLines(x: string, y: string, z: string) returns (lines: seq<string>)
    requires '\n' !in x && '\n' !in y && '\n' !in z
    ensures lines == [x, y, z]
  {
    SplitThreeLines(x, y, z);
    lines := ReadLines(x + "\n" + y + "\n" + z);
  }

  /** Three lines free of '\n', joined by "\n", split back into those three lines. */
  lemma SplitThreeLines(x: string, y: string, z: string)
    requires '\n' !in x && '\n' !in y && '\n' !in z
    ensures Split(x + "\n" + y + "\n" + z, "\n") == [x, y, z]
  {
    var parts := [x, y, z];
    NewlineFree(x);
    NewlineFree(y);
    NewlineFree(z);
    assert parts[1..] == [y, z] && parts[1..][1..] == [z];
    assert Join([y, z], "\n") == y + "\n" + z;
    assert Join(parts, "\n") == x + "\n" + (y + "\n" + z);
    assert x + "\n" + y + "\n" + z == x + "\n" + (y + "\n" + z);
    SplitJoin(parts, "\n");
  }
}
