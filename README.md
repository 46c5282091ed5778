# Python interview practice, days 1–3, modelled in Dafny

This project models the three tutorial scripts of the repository:

- **day-1.py**
  - the log analyzer `analyze_logs`: keep the lines that start with `"IP:"`, take element `[1]` of `line.split(": ")`, and count those fields with `collections.Counter`;
  - the `word_lengths` dict comprehension;
  - `Counter.most_common(2)` on a small fruit list.
- **day-2.py**
  - the `MyRange` and `StringIterator` iterator classes;
  - the `fibonacci` and `primes` generators, with the `is_prime` trial division;
  - the even-number filter and the squares generator expression.
- **day-3.py**
  - the function wrappers: `my_decorator`, `decorator_with_args`, `MyClassDecorator`, `logging_decorator`, `memoize` with the memoized `fibonacci`, `CallCounter`, `repeat(n)` and `authenticate`.

Files:

- `common.dfy`: `Option` (a Python `StopIteration` is `None`) and `Result` (a raised `IndexError` or `PermissionError` is `Err`).
- `strings.dfy`: Python's `str.split(sep)` and `sep.join(parts)` on `seq<char>`. Splitting is the usual left-to-right, non-overlapping scan. Joining the pieces of any split gives back the string (`JoinSplit`). The converse holds for a one-character separator and a non-empty list of pieces that do not contain it (`SplitJoin`).
- `log_analyzer.dfy`: the day-1 code. A `Counter` is a map from item to its positive count, and `most_common` is a stable sort by descending count.
- `iterators.dfy`: the day-2 code. The iterator classes keep their mutable fields (`current`, `index`), and `Next` is `__next__`. The generator functions become methods whose loops return every value the generator would yield, in order.
- `decorators.dfy`: the day-3 code.
  - A wrapped function is a `Callable` object. It holds a result function `int -> int` and a log of the arguments it was called with.
  - That log stands in for the function's side effects, so "calls func exactly once" becomes "the log grows by exactly that argument".
  - `memoize`'s closure dictionary and `CallCounter`'s counter are class fields that the methods update.

A line that starts with `"IP:"` but has no `": "` in it (such as `"IP:1.2.3.4"`) makes `analyze_logs` raise `IndexError`. The model returns `Err(IndexError)` for it.

## Model

| member | source | states |
|---|---|---|
| Strings.Find | day-1.py:37 | the left-to-right scan inside `split`: a position it reports lies at or after the start, with the whole separator inside the string |
| Strings.Split | day-1.py:37 | `s.split(sep)`: always at least one piece, and a single piece is the whole string |
| Strings.FindSpec | day-1.py:37 | the scan for a separator returns the first occurrence at or after the start, and reports none only when there is none |
| Strings.SplitSingle | day-1.py:37 | `split` gives a single piece exactly when the separator does not occur in the string (the case in which `[1]` raises IndexError) |
| Strings.SplitPiecesClean | day-2.py:106 | no piece of a split contains the separator |
| Strings.SplitFirstPiece | day-1.py:37 | the first piece is the prefix up to the first occurrence of the separator, or the whole string when there is none |
| Strings.FirstOccurrence | day-1.py:37 | an occurrence with none before it is the one the scan finds |
| Strings.JoinSplit | day-2.py:106 | joining the pieces of a split with the same separator gives back the string |
| Strings.SplitJoin | day-2.py:106 | splitting on a one-character separator the join of pieces free of it gives back the pieces |
| Iterators.Interval | day-2.py:63-77 | the range [lo, hi) in increasing order: hi - lo values, the k-th being lo + k, and none when lo >= hi |
| Iterators.IntervalSplit | day-2.py:72-77 | a range is the range up to a midpoint followed by the range after it |
| Iterators.MyRange.constructor | day-2.py:64-67 | a new range starts at `start`; nothing has been yielded yet and all of [start, end) remains |
| Iterators.MyRange.Progress | day-2.py:72-77 | the values yielded so far followed by those still to come are exactly [start, end) |
| Iterators.MyRange.Next | day-2.py:72-77 | below `end`, returns `current` and advances it by exactly 1; otherwise StopIteration with `current` unchanged, so an exhausted range stays exhausted; the remaining values lose exactly the returned head |
| Iterators.MyRange.Drain | day-2.py:69-77 | a `for` loop over the range yields every remaining value in order and leaves it exhausted |
| Iterators.RangeValues | day-2.py:79-82 | `list(MyRange(start, end))` has max(end - start, 0) values, the k-th being start + k |
| Iterators.RangeZeroToFive | day-2.py:80-82 | `MyRange(0, 5)` yields 0, 1, 2, 3, 4 |
| Iterators.Fibonacci | day-2.py:86-90 | `fibonacci(n)` yields max(n, 0) values, the k-th being F(k) |
| Iterators.FibTable | day-2.py:92-94 | F(0) … F(9) are 0, 1, 1, 2, 3, 5, 8, 13, 21, 34 |
| Iterators.FibonacciTen | day-2.py:92-94 | `list(fibonacci(10))` is [0, 1, 1, 2, 3, 5, 8, 13, 21, 34] |
| Iterators.Evens | day-2.py:98-99 | the filter keeps exactly the elements x with x % 2 == 0 |
| Iterators.EvensAppend | day-2.py:99 | the filter keeps the original order: filtering a concatenation concatenates the filtered parts |
| Iterators.EvensMultiplicity | day-2.py:99 | every even element keeps its multiplicity and every odd one is dropped |
| Iterators.EvensExample | day-2.py:98-100 | the evens of [1, 2, 3, 4, 5, 6] are [2, 4, 6] |
| Iterators.Squares | day-2.py:24 | the generator expression yields one square per input, in order |
| Iterators.SmallDivisor | day-2.py:131-133 | a composite number has a divisor e with 2 <= e and e * e <= num |
| Iterators.TrialDivisionSuffices | day-2.py:131-134 | no divisor below i with num < i * i means that num is prime |
| Iterators.TrialDivision | day-2.py:128-134 | num is prime exactly when num >= 2 and no i with 2 <= i and i * i <= num divides it |
| Iterators.IsPrime | day-2.py:128-134 | `is_prime(num)` is true exactly when num is prime, false in particular for num < 2 |
| Iterators.PrimesUpTo | day-2.py:136-138 | the primes up to n lie in [2, n] in strictly increasing order |
| Iterators.PrimesUpToMembers | day-2.py:136-138 | a number is among them exactly when it is a prime in [2, n] |
| Iterators.PrimeByTrial | day-2.py:131-134 | a number with no divisor in [2, r) and below r * r is prime |
| Iterators.Primes | day-2.py:136-138 | `primes(n)` yields exactly the primes in [2, n], strictly increasing, and nothing when n < 2 |
| Iterators.PrimesUpToTwenty | day-2.py:140-142 | the primes up to 20 are 2, 3, 5, 7, 11, 13, 17, 19 |
| Iterators.PrimesToTwenty | day-2.py:140-142 | `list(primes(20))` is [2, 3, 5, 7, 11, 13, 17, 19] |
| Iterators.StringIterator.constructor | day-2.py:105-107 | the lines are `text.split('\n')` and the index starts at 0 |
| Iterators.StringIterator.Next | day-2.py:112-117 | returns the line at `index` and advances it by 1, or StopIteration once every line is returned; `index` never exceeds the number of lines |
| Iterators.StringIterator.Drain | day-2.py:109-117 | a `for` loop yields every line not yet returned, in order |
| Iterators.ReadLines | day-2.py:104-117 | the iterator yields the pieces of `text.split('\n')`: at least one, none containing '\n', joined with '\n' they give back the text, and text without a newline (the empty text included) is one line |
| Iterators.NewlineFree | day-2.py:106 | the one-character separator "\n" occurs in a string exactly when '\n' is one of its characters |
| Iterators.SplitThreeLines | day-2.py:119-123 | three newline-free lines joined by "\n" split back into those three lines |
| Iterators.ThreeLines | day-2.py:119-123 | iterating over a text such as "Line 1\nLine 2\nLine 3" yields its three lines |
| Decorators.Callable.Call | day-3.py:26 | a call of the wrapped function returns its result and is logged once |
| Decorators.MyDecorator | day-3.py:8-13 | the wrapper calls func exactly once |
| Decorators.DecoratorWithArgs | day-3.py:23-29 | the wrapper calls func exactly once and returns its result unchanged |
| Decorators.LoggingDecorator | day-3.py:76-82 | the wrapper calls func exactly once and returns its result unchanged |
| Decorators.ClassDecorator.constructor | day-3.py:40-41 | the decorator object keeps the function it wraps |
| Decorators.ClassDecorator.Call | day-3.py:43-45 | `__call__` calls func exactly once and returns its result unchanged |
| Decorators.Authenticate | day-3.py:145-152 | when not authenticated, PermissionError("Not authenticated") and func is not called; otherwise func is called once and its result returned unchanged |
| Decorators.Copies | day-3.py:132-133 | n copies of the argument, none when n <= 0 |
| Decorators.Repeat | day-3.py:129-135 | the wrapper calls func exactly n times with the same argument, never when n <= 0, and returns nothing |
| Decorators.SayHiThreeTimes | day-3.py:137-141 | `say_hi` decorated with `repeat(3)` runs three times |
| Decorators.CallCounter.constructor | day-3.py:111-113 | the count starts at 0 |
| Decorators.CallCounter.Call | day-3.py:115-118 | each call adds exactly 1 to the count, calls func once and passes its result through |
| Decorators.TestFuncTwice | day-3.py:120-125 | two calls of `test_func` leave the counter at 2 |
| Decorators.Memoize.constructor | day-3.py:92-93 | the cache starts empty |
| Decorators.Memoize.Call | day-3.py:94-97 | returns func's result; calls func only for an argument not yet cached, so at most once per argument; the only change to the cache is the new entry; every entry stays func applied to its key |
| Decorators.FibonacciValue | day-3.py:101-104 | the undecorated `fibonacci`: its value is non-negative exactly when its argument is |
| Decorators.MemoizedFibonacci.constructor | day-3.py:92-93 | the cache of the decorated `fibonacci` starts empty |
| Decorators.MemoizedFibonacci.Fibonacci | day-3.py:100-104 | returns n for n < 2 and the sum of the two previous values otherwise; n is cached afterwards, old entries are kept unchanged, the only new keys are n and, for n >= 2, the keys below n, and a cached n is answered without running the body |
| Decorators.MemoizedFibonacci.Store | day-3.py:95-96 | storing a computed value keeps every entry equal to the Fibonacci value of its key, and the body ran once per key |
| Decorators.FibonacciValueIsFib | day-3.py:101-104 | for n >= 0 the decorated function computes F(n), the same numbers as the day-2 generator |
| Decorators.FibonacciValueOfTen | day-3.py:106 | `fibonacci(10)` is 55 |
| Decorators.ComputedArguments | day-3.py:94-97 | once every k in [0, n] is cached and nothing else, the body ran exactly for the arguments 0 … n |
| Decorators.FibonacciTenTwice | day-3.py:106 | `fibonacci(10)` is 55 on both calls, and the body runs 11 times in all, once per argument 0 … 10 |
| LogAnalyzer.Count | day-1.py:38 | `Counter(items)` has exactly the items as keys, each mapped to its (positive) number of occurrences |
| LogAnalyzer.CountTotal | day-1.py:38 | the counts sum to the number of items |
| LogAnalyzer.CountOrderFree | day-1.py:38 | the counts do not depend on the order of the items |
| LogAnalyzer.IsIpLine | day-1.py:37 | `line.startswith("IP:")`: the line has at least three characters and they are 'I', 'P', ':' |
| LogAnalyzer.IpField | day-1.py:37 | `line.split(": ")[1]` raises IndexError exactly when ": " does not occur in the line |
| LogAnalyzer.IpFieldAfterFirst | day-1.py:37 | the field is the text between the first ": " and the next ": " or the end of the line |
| LogAnalyzer.IpFieldOfSimpleLine | day-1.py:37 | from "IP: " followed by text without ':', the field is that text |
| LogAnalyzer.IpLines | day-1.py:37 | the kept lines are exactly those that start with "IP:" |
| LogAnalyzer.ExtractIps | day-1.py:37 | the comprehension fails exactly when a kept line has no ": " |
| LogAnalyzer.ExtractIpsFields | day-1.py:37 | otherwise it has one field per kept line, in order, each being that line's field |
| LogAnalyzer.ExtractIpsCounts | day-1.py:37 | a field occurs as often as there are kept lines that carry it |
| LogAnalyzer.ExtractIpsCons | day-1.py:37 | a leading "IP: " line contributes its field in front of the others |
| LogAnalyzer.ExtractIpsOfIpLines | day-1.py:37 | the fields depend only on the kept lines |
| LogAnalyzer.AnalyzeLogs | day-1.py:36-38 | `analyze_logs` raises IndexError exactly when a kept line has no ": ", and otherwise every count is positive |
| LogAnalyzer.AnalyzeLogsCounts | day-1.py:36-38 | each field is counted once per kept line that carries it, fields of no line are absent, and the counts sum to the number of kept lines |
| LogAnalyzer.OnlyIpLinesMatter | day-1.py:36-38 | lines that do not start with "IP:" do not affect the result |
| LogAnalyzer.AnalyzeLogsOrderFree | day-1.py:36-38 | the result does not depend on the order of the lines |
| LogAnalyzer.SameCounts | day-1.py:36-38 | two orders of the same lines give the same counts |
| LogAnalyzer.LinesWithIpOrderFree | day-1.py:37 | the number of kept lines carrying a field does not depend on the order of the lines |
| LogAnalyzer.SampleIps | day-1.py:41-47 | the five sample lines yield the fields x, y, x, z, x |
| LogAnalyzer.SampleCount | day-1.py:38 | counting x, y, x, z, x gives x: 3, y: 1, z: 1 |
| LogAnalyzer.SampleLog | day-1.py:41-49 | the sample log with three distinct addresses gives the first 3 and the others 1 each |
| LogAnalyzer.FirstSeen | day-1.py:81 | a Counter's key order, built item by item: never longer than the items |
| LogAnalyzer.FirstSeenKeys | day-1.py:81 | a Counter's key order lists every item exactly once |
| LogAnalyzer.FirstSeenOrder | day-1.py:81 | the keys are in order of first appearance: a prefix of the items that holds a later key holds every earlier one |
| LogAnalyzer.Entries | day-1.py:81 | the Counter's entries in key order, each item with its number of occurrences |
| LogAnalyzer.InsertByCount | day-1.py:82 | insertion adds the entry and keeps all others |
| LogAnalyzer.InsertByCountDescending | day-1.py:82 | insertion into a list sorted by descending count keeps it sorted |
| LogAnalyzer.SortByCount | day-1.py:82 | the sort is a permutation of the entries, sorted by descending count |
| LogAnalyzer.WithCountInsert | day-1.py:82 | insertion puts an entry before every entry of the same count |
| LogAnalyzer.SortByCountStable | day-1.py:82 | the sort is stable: entries of equal count keep their key order |
| LogAnalyzer.MostCommon | day-1.py:82 | `most_common(k)` returns min(k, number of keys) entries, none for k <= 0, by descending count |
| LogAnalyzer.MostCommonPrefix | day-1.py:82 | `most_common(k)` is a prefix of the sorted entries |
| LogAnalyzer.MostCommonEntries | day-1.py:82 | each returned entry is an item with its number of occurrences |
| LogAnalyzer.MostCommonIsTop | day-1.py:82 | an item left out occurs no more often than any item returned |
| LogAnalyzer.MostCommonTies | day-1.py:82 | among entries of equal count, the returned ones come first in key order |
| LogAnalyzer.FruitFirstSeen | day-1.py:80-81 | the key order of apple, banana, apple, cherry, banana, apple is apple, banana, cherry |
| LogAnalyzer.FruitEntries | day-1.py:80-81 | its entries are apple: 3, banana: 2, cherry: 1 |
| LogAnalyzer.FruitSorted | day-1.py:82 | those entries are already sorted by descending count |
| LogAnalyzer.FruitExample | day-1.py:80-82 | `most_common(2)` of the fruit list is [(apple, 3), (banana, 2)] |
| LogAnalyzer.WordLengths | day-1.py:69 | the comprehension has exactly the words as keys, each mapped to its length |
| LogAnalyzer.WordLengthsExample | day-1.py:68-70 | `word_lengths` of hello, world, python is hello: 5, world: 5, python: 6 |

## Left out

- `FileIterator` (day-2.py:30-46) reads a file with `open`, `readline` and `close`, which is I/O. `StringIterator` covers the same line-by-line walk.
- `timing_decorator` and `slow_function` (day-3.py:54-70) depend on the wall clock, `time.sleep` and float formatting.
- Every `print`: the console output of the wrappers and of the tutorials. A wrapped function's effect is modelled only as its call log.
- The tuple, set, namedtuple and dict-comprehension demos of day-1.py, and the `iter`/`next`/`my_generator` demos of day-2.py (day-2.py:8-20). They exercise language features and have no logic of their own.
- `is_prime`'s float bound `int(num**0.5)` is modelled as the exact integer condition i * i <= num. The two agree only as long as the float square root is exact enough.
- `*args` and `**kwargs`: every wrapper is modelled over one fixed arity, `int -> int`. The memoize cache is keyed by that one argument rather than by an argument tuple.
- The wrapped function is modelled as total (`Callable.f` is an `int -> int`), so an exception raised by it is not modelled. In the source such an exception passes through every wrapper: `CallCounter` has already counted the call (day-3.py:116 runs before day-3.py:118), `memoize` stores nothing (day-3.py:96), and `repeat` stops early (day-3.py:132-133).
- Stacking several decorators on one function is not modelled, because the wrappers do not share a common callable type here.
- Generator laziness and suspension: a generator is a method that returns every value it would yield, in order.
- The hard-coded `authenticated = True` (day-3.py:148) is a parameter of `Authenticate`, so both branches are modelled.
- `Decorators.MemoizedFibonacci.Fibonacci`: recursion depth and the size of Python's integers are not limits here, as Dafny integers are unbounded.
- `LogAnalyzer.AnalyzeLogs`: the result is a map, so the key order of the returned `Counter` (first appearance) is not part of it. That order is modelled by `FirstSeen` for `most_common`.
- `LogAnalyzer.SampleLog` is stated for any three distinct addresses without ':' rather than the literal "192.168.1.1", "192.168.1.2" and "10.0.0.1". The literals are such addresses.
- `LogAnalyzer.FruitExample` is stated for any three distinct items rather than the literal "apple", "banana" and "cherry".
- `Iterators.ThreeLines` is stated for any three lines without '\n' rather than the literal "Line 1", "Line 2" and "Line 3".
