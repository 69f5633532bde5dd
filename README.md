# Brute-force gcd workload of the concurrent.futures examples

The example scripts `Concurrent/concurrent.futures/api.py` and
`Concurrent/concurrent.futures/test.py` give their thread and process pools
the same workload: `gcd(pair)`, a brute-force greatest common divisor, mapped
over a list of integer pairs. The two copies of `gcd` are identical. It sets
`low = min(a, b)` and returns `low` if it divides both numbers. Otherwise it
scans `i` from `low // 2` down to 1 and returns the first `i` that divides
both. If the scan ran out, Python would return `None`.

This project models that function and the ordered `map` over a list of pairs:

- `Divisibility` defines divisibility the way the code tests it
  (`n % d == 0` with `d > 0`), the common divisor, and the greatest common
  divisor as a declarative predicate `IsGcd`. It also proves the key
  arithmetic fact: a divisor of `n` other than `n` is at most `n / 2`.
- `Euclid` is an independent reference definition, Euclid's remainder
  algorithm, with its proof of correctness against `IsGcd`. It is not code
  from the repository.
- `PairGcd` holds `GcdOf`, the Python function as a value (`Option<int>`,
  with `None` for the implicit return after the loop), and `Gcd`, the same
  code as a method with the descending loop. It proves that for positive
  inputs the result is always present, lies in `1 .. min(a, b)`, is
  `min(a, b)` when that divides both, is the greatest common divisor, equals
  Euclid's result, and does not depend on the order of the pair.
- `Driver` holds `MapGcd`, the sequential `list(map(gcd, numbers))`, with
  one result per pair in input order.

The model requires both inputs to be positive, as in every pair the scripts
pass. The source itself fails only when `min(a, b)` is 0: then the test
`a % low` raises ZeroDivisionError. When `min(a, b)` is negative,
`range(low // 2, 0, -1)` is empty. `gcd` then returns `min(a, b)` if that
divides both numbers and `None` otherwise.

The scripts do not implement a worker pool. They import one from Python's
standard library. The model follows the code, so it contains no pool,
future, or wait machinery.

## Model

| member | source | states |
|---|---|---|
| `Divisibility.ProperDivisorAtMostHalf` | Concurrent/concurrent.futures/api.py:17-18 | any divisor of a positive `n` other than `n` is at most `n // 2`, so the scan that starts at `low // 2` skips no candidate |
| `PairGcd.Min` | Concurrent/concurrent.futures/api.py:14 | `min(a, b)` is at most each number and equals one of them |
| `PairGcd.CommonDivisorsAtMostHalfMin` | Concurrent/concurrent.futures/test.py:18-21 | if `min(a, b)` is not a common divisor, every common divisor is at most `min(a, b) // 2` |
| `PairGcd.ScanDown` | Concurrent/concurrent.futures/test.py:21-23 | the descending loop returns the largest common divisor in `1 .. i`; it returns `None` exactly when no candidate in that range divides both |
| `PairGcd.GcdOf` | Concurrent/concurrent.futures/test.py:15-23 | `gcd(pair)` as written, with `None` for the implicit return after the loop; for positive inputs it always returns a value in `1 .. min(a, b)`, that value is `min(a, b)` when it divides both, and it is the greatest common divisor |
| `PairGcd.GcdOfSymmetric` | Concurrent/concurrent.futures/api.py:13-20 | `gcd((a, b)) == gcd((b, a))` |
| `PairGcd.GcdOfAgreesWithEuclid` | Concurrent/concurrent.futures/api.py:12-20 | the brute-force result equals the result of Euclid's algorithm |
| `PairGcd.Gcd` | Concurrent/concurrent.futures/api.py:12-20 | the imperative loop returns a value, never `None`, for positive inputs; the value is the greatest common divisor, lies in `1 .. min(a, b)`, is `min(a, b)` when that divides both, and equals `GcdOf` |
| `Driver.MapGcd` | Concurrent/concurrent.futures/test.py:32 | `list(map(gcd, numbers))` has one entry per pair, and entry `i` is `gcd(numbers[i])` |
| `Driver.MapGcdInOrder` | Concurrent/concurrent.futures/api.py:30-33 | entry `i` of the mapped list is present and is the greatest common divisor of pair `i` (equal to Euclid's result), so results keep input order |

## Left out

- `ThreadPoolExecutor`, `ProcessPoolExecutor`, `submit`, `Future.running`, `Future.done`, `Future.result`, `as_completed` and `wait` (api.py:8-9 and 31-75; test.py:34-40): standard-library concurrency that the scripts call but do not implement. The parallel `pool.map` is modelled only by its documented outcome, which is the same list as the sequential `map`.
- `Driver.MapGcdInOrder`: does not model the order in which pool workers finish. It states only the ordered result that the comment at api.py:30 promises.
- `_utils.context.timer` (api.py:7, test.py:11): wall-clock timing; its source is not part of this model.
- `print` output, and the pickling and socket transfer described in the comments at test.py:42-53: I/O and inter-process plumbing.
- The `numbers` list (api.py:23-24, test.py:26-27): `MapGcd` takes any list of positive pairs. The six concrete results are not evaluated in the model.
- `gcd` on pairs that are not both positive: the scripts never pass one. In the source, a `min(a, b)` of 0 raises ZeroDivisionError in `a % low`. A negative `min(a, b)` makes the scan empty, so `gcd` returns `min(a, b)` or `None`. The model requires both numbers to be positive.
- `Concurrent/Multiprocessing/*` and `xlearn/*`: process spawning, queues and pools, and calls into a foreign machine-learning library. They have no logic of their own to model.
