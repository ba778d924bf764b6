# Crystal identifier registry in Dafny

Crystal is a JavaScript library that hands out random identifiers and remembers
the ones in use. A registry holds a numeric `base` (default 16), a bit length
`bits` (default 128), a growth step `grow` (default 32), and an ordered store
of claimed identifier strings. It has these operations:

- `claim(id)` appends an explicit id, and throws when the id is already claimed.
- `claim()` appends a freshly generated id.
- `release(id)` removes the first stored copy of an id, and always returns `true`.
- `has(id)` tests membership.

`claim()` uses a private `generate` loop. The loop calls `random()` until a
candidate is not in the store. From the 12th attempt on, it adds `grow` to
`bits` before each attempt. `random()` assembles a digit string:

1. Each whole-range digit is prepended, so the first drawn digit ends up rightmost.
2. One optional reduced-range digit is prepended last, so it is leftmost.
3. A string whose value is `2^bits` or more is rejected and drawn again.

The model is functional. A registry is an immutable `Registry` value, and each
operation returns the registry as it is afterwards. Randomness and the
floating-point digit count are inputs:

- `random()` receives a `Shape` (the whole-digit count, and whether a
  reduced-range digit follows) and a sequence of `Draw`s of digit values.
- `generate` receives an `Oracle`: `random(j, bits)` is the string that
  `random()` returns on attempt `j + 1` while the registry's `bits` is `bits`.
- The predicate `Crystal.DrawnFrom` ties an oracle to the draws of
  `RandomId.Random`.

Modules:

- `Wrappers`: `Option`.
- `Digits`: these JavaScript calls over unbounded integers:
  - `Number.prototype.toString(radix)` (`ToRadix`);
  - `parseInt` on non-empty digit strings (`Parse`; the empty string reads as 0);
  - the right-to-left digit layout of `random()` (`Render`).
- `RandomId`: `random()`. `Assemble` is its digit loop. `Random` is its
  rejection loop. `Outcome` is a recursive reference definition of what the
  rejection loop returns.
- `Crystal`: the registry:
  - `New`, `Has`, `Claim`, `Release` and `ClaimNew`;
  - the `Generate` loop;
  - the duplicate-freedom invariant over runs of operations.

## Model

| member | source | states |
|---|---|---|
| Crystal.New | lib/crystal.js:32-39 | A missing or zero `base`, `bits` or `grow` becomes 16, 128 or 32. Any other given value is kept as is. The store starts empty, so it has no duplicates. |
| Crystal.IndexOf | lib/crystal.js:90 | Returns -1 exactly when the id is absent. Otherwise returns a position holding the id, with no earlier copy of it. |
| Crystal.Has | lib/crystal.js:106-108 | True exactly when the id is in the store. |
| Crystal.Claim | lib/crystal.js:59-70 | A claimed id fails with `DuplicateClaim` carrying that id. A fresh id comes back unchanged. The fresh id is appended at the end, nothing else changes, and `has(id)` holds afterwards. |
| Crystal.ClaimTwiceFails | lib/crystal.js:62-68 | Claiming a fresh id twice fails the second time. The store grows by exactly one. |
| Crystal.ClaimKeepsNoDuplicates | lib/crystal.js:62-68 | A successful explicit claim keeps the store duplicate-free. |
| Crystal.Release | lib/crystal.js:88-93 | Always reports success. Config is unchanged. An absent id leaves the store as is. Otherwise exactly the first occurrence is spliced out, with the other entries in order. The multiset loses one copy of the id. |
| Crystal.RemoveFirstSplices | lib/crystal.js:90-91 | An independent recursive definition of removing the first occurrence. At the first position holding the id, it agrees with the `indexOf`/`splice` pair. |
| Crystal.RemoveFirstAbsent | lib/crystal.js:90-92 | The independent removal leaves a store without the id unchanged, as `release` does when `indexOf` gives -1. |
| Crystal.ReleaseIsRemoveFirst | lib/crystal.js:88-93 | `release` leaves exactly the store that the independent removal definition gives. |
| Crystal.ReleaseKeepsNoDuplicates | lib/crystal.js:88-93 | On a duplicate-free store, release keeps it duplicate-free and `has(id)` is false afterwards. |
| Crystal.ClaimReleaseRoundTrip | lib/crystal.js:59-93 | Releasing an id just claimed on a store without it restores the original registry. |
| Crystal.BitsAtFormula | lib/crystal.js:189-190 | Attempt k grows `bits` iff k ≥ 12, so after n attempts `bits = old + grow * max(0, n - 11)`. |
| Crystal.FirstFreshUnique | lib/crystal.js:189-192 | The attempt at which `generate` stops is unique. |
| Crystal.Generate | lib/crystal.js:184-195 | Stops at the first attempt whose candidate is unclaimed. All earlier candidates were claimed. Returns that candidate and `bits = old + grow * max(0, n - 11)`. |
| Crystal.ClaimNew | lib/crystal.js:59-70 | Returns an id that was not stored and appends exactly it. `base` and `grow` are unchanged. `bits` is kept as `generate` grew it. No-duplicates is preserved. |
| Crystal.GeneratedWithinBits | lib/crystal.js:189-194 | When the oracle follows the draws, the generated id has its attempt's digit count. Its value is below `2^bits` for the grown `bits`. |
| Crystal.ClaimGeneratedTwice | test/crystal.js:35-42 | After `claim()` returns an id, `has(id)` holds, and a following explicit `claim(id)` of a non-empty id fails as a duplicate. |
| Crystal.StepKeepsNoDuplicates | lib/crystal.js:59-93 | Every explicit claim, generated claim or release keeps the store duplicate-free. |
| Crystal.RunKeepsNoDuplicates | lib/crystal.js:32-93 | Every registry reached from a duplicate-free one by any run of operations is duplicate-free. |
| Digits.Parse | lib/crystal.js:155 | `parseInt(s, base)` over digits of `base`, most significant first, with its value pinned by `ToRadixRoundTrip` and `RenderValue`. |
| Digits.ToRadix | lib/crystal.js:172 | `toString(base)` yields digits of `base`. The result is one character exactly when the value is below `base`. |
| Digits.ToRadixRoundTrip | lib/crystal.js:171-173 | `parseInt(x.toString(base), base) == x`. |
| Digits.Render | lib/crystal.js:144-153 | The prepended layout has one character per drawn value, and the k-th drawn value is the k-th character from the right. |
| Digits.RenderValue | lib/crystal.js:155 | Parsing the prepended layout gives the drawn values read least significant first. |
| Digits.LittleEndianBound | lib/crystal.js:144-153 | m digits of `base` hold a value in `[0, base^m)`. |
| RandomId.Assemble | lib/crystal.js:139-153 | The loop result has `whole + (partial ? 1 : 0)` characters. The k-th whole digit drawn is the k-th character from the right, and the reduced-range digit is leftmost. |
| RandomId.TextValue | lib/crystal.js:144-155 | The assembled string parses to the drawn digits read first-drawn least significant. The value is below `base^width`. |
| RandomId.Accepts | lib/crystal.js:155-158 | The rejection test with exact integers: a value is kept when it is below `2^bits`. For negative `bits` only 0 is kept, because `2^bits` is then a fraction in (0, 1). |
| RandomId.AcceptsGrows | lib/crystal.js:155-158 | A value the test keeps at some `bits` is kept at every larger `bits`, so the growth in `generate` (lib/crystal.js:190) only admits more values. |
| RandomId.Outcome | lib/crystal.js:127-159 | `random()`'s result over given draws. When present, it has the shape's width, consists of digits of `base`, and passes the rejection test. |
| RandomId.ZeroWidthAccepted | lib/crystal.js:139-158 | With a digit count of 0 the attempt builds `''`, and `random()` returns it for every `bits`, as the source does when `parseInt('')` is `NaN`. |
| RandomId.Random | lib/crystal.js:127-159 | Returns the first accepted draw's string, with the shape's width. Every earlier draw was rejected. For `bits ≥ 0` the value is below `2^bits`. The result equals `Outcome`. |

## Left out

- Randomness is not modelled. `Math.random` (lib/crystal.js:172) becomes the `Draw` values handed to `RandomId.Random` and the `Oracle` handed to `Crystal.Generate`.
- The floating-point digit count is not modelled. This covers `Math.log`/`Math.pow` and the doubling loop for an infinite count (lib/crystal.js:130-137). `RandomId.Shape` replaces them as an input.
- RandomId.Fits: bounds the reduced-range digit only by `base`. The exact bound `base^rem` is a floating-point quantity.
- RandomId.Random: the rejection test uses exact integers. The source accepts any value once `parseInt` or `Math.pow(2, bits)` overflows to `Infinity` (lib/crystal.js:156), and that case has no integer counterpart. Rounding of values above 2^53 is not modelled either.
- RandomId.Random: requires that some draw is accepted, and `Crystal.Generate` requires that some attempt yields an unclaimed candidate (`Terminates`). Both stand in for the unbounded retries. `random()`'s recursive retry is written as a loop.
- RandomId.Random: requires a base from 2 to 36, and neither case outside that range is modelled. A base of 37 or more makes `Number.prototype.toString` throw a `RangeError`, but only once a digit is drawn; with a digit count of 0, `''` comes back. A base of 1 or a negative base, which the constructor keeps (it replaces only 0), gives a digit count of `NaN` (lib/crystal.js:130-137). The one exception is base 1 with negative `bits`, which gives `-Infinity`. Then no digit is drawn, `random()` returns `''`, and a second `claim()` on such a registry never terminates.
- Digits.Parse: the empty string reads as 0, where `parseInt('')` gives `NaN`. The source builds `''` whenever no digit is drawn: for a digit count of 0, a negative whole number (base 2 with `bits` -1 gives -1), `NaN` or `-Infinity`. `Shape(0, false)` covers the finite cases. The other two come from bases outside 2 to 36, which are not modelled. The rejection test keeps both 0 and `NaN`, so `random()` returns `''` either way (`RandomId.ZeroWidthAccepted`).
- Crystal.Claim: requires a non-empty id. The source turns `''` into `null` through `id + '' || null` and stores `null`, which is not modelled. The string coercion of other values is not modelled either.
- `claim`'s `arguments.length` dispatch becomes two entry points: `Crystal.Claim` and `Crystal.ClaimNew`.
- Crystal.New: options are integers, and 0 is the only falsy number modelled. `NaN`, non-numeric values and fractional values are not modelled, and there is no range validation, as in the source.
- The `instanceof` guard that lets the constructor be called without `new` (lib/crystal.js:33) is not modelled. It only concerns JavaScript object creation.
- Mutation of the registry object becomes a new value. Concurrency does not arise, because the source is single-threaded.
- test/bootstrap/index.js is test-harness wiring only. The assertions of test/crystal.js are not modelled as tests. They correspond to `New`, `Claim`, `ClaimNew` and `ClaimGeneratedTwice` above.
