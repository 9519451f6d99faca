# result: a Dafny model of a C++ result/error library

This project models the header `result.hpp` and the demo in `example.cpp`.

- **`Error`** is a type-erased error. It holds either nothing (default construction) or one error value of some kind in a `std::any`. Here it is the datatype `Errors.Error = Empty | Holding(kind)`. The kinds are `Kinds.Kind`: the two category structs `LogicError` and `RuntimeError`, the six empty structs derived from them, and `Other(id)` for any other struct a caller stores.
- **`ErrorCast<K>`** is an exact-type downcast. It succeeds only when the stored kind is `K` itself, because `std::any_cast` does no base-class conversion.
- **`Error::match`** turns every handler into an `InnerPattern`, which has a compile-time `matched` flag and a runtime `fn` that may be empty. It then reduces the patterns left to right with `operator|`. A `static_assert` rejects the call unless some handler accepts `Error` itself. In the model, handlers are data: `CatchAll`, `Exact(kind)`, and `Inert` for a parameter that no conversion reaches. A pattern's `fn` is the position of the handler it would call. `Reduced` is the fold. The lemmas prove that the fold picks the least position whose handler is live.
- **`Result<T, E>`** is `Results.Result = Ok(value) | Err(error)`. It comes with `ValueOr`, `AndThen` and `OrElse`, and with `Match`, which is the same fold using two flags (`ValueMatched`, `ErrMatched`). Exact-kind `Err` handlers take part only when `E` is `Error`. The model passes this in as `erased`: `MatchErased` supplies it for `Result<T, Error>`, and `Match` passes `None` for every other `E`.
- **Move-out.** The classes `ErrorObject` and `ResultObject` model the objects that assignment and the rvalue (`&&`) overloads change in place. Moving the payload out leaves the variant tag as it was.
- **`ElementaryArithmeticFromZeroToMillion`** (in `example.cpp`) is modelled for `T = int`. The scenarios of `main` and `MoveResult` are stated as lemmas and a method in module `Demo`.

Three behaviours of the code worth noting:
- **No base-kind fallback.** Matching is exact-kind only: a handler for `LogicError` never catches a stored `InvalidArgumentError` (result.hpp:248).
- **Exhaustiveness needs a catch-all.** Exact handlers for every kind do not satisfy it (result.hpp:196-200, 219).
- **The demo chain ends at 10.** The chain in `example.cpp` has five steps. It ends as success 10, and its final `or_else` is skipped (example.cpp:98-118).

## Model

| member | source | states |
|---|---|---|
| `Kinds.Base` | result.hpp:273-283 | `InvalidArgument`, `Length`, `OutOfRange` and `DivideByZero` derive from `LogicError`; `Range` and `Overflow` derive from `RuntimeError`; every other kind, including the two category structs, derives from nothing, and no kind is its own base |
| `Errors.ErrorCast` | result.hpp:246-271 | the downcast to `k` succeeds exactly when the error holds kind `k`, and then yields `k` |
| `Errors.CastRoundTrip` | result.hpp:161-170 | an Error built from `k` has a value, and casting it to `k` gives back `k` |
| `Errors.CastOtherKindIsEmpty` | result.hpp:246-253 | casting an Error holding `k` to any other kind is empty |
| `Errors.CastToBaseIsEmpty` | result.hpp:273-283 | casting a derived kind to its own base struct is empty: there is no base-class fallback |
| `Errors.CastOfEmptyIsEmpty` | result.hpp:155 | a default-constructed Error has no value, and every cast of it is empty |
| `Errors.Error.HasValue` | result.hpp:170 | an Error has a value exactly when the cast to some kind succeeds |
| `Errors.ErrorObject.Default` | result.hpp:155 | the default constructor stores nothing |
| `Errors.ErrorObject.Of` | result.hpp:161-162 | the constructor from a kind stores that kind |
| `Errors.ErrorObject.Assign` | result.hpp:164-168 | assigning a kind overwrites the stored value with that kind |
| `Errors.ErrorObject.AssignFrom` | result.hpp:158-159 | copy and move assignment make the object equal to the other Error |
| `Errors.ErrorObject.MoveCast` | result.hpp:264-271 | the rvalue cast returns what the read-only cast would, and the stored kind stays in place |
| `Errors.PatternOf` | result.hpp:194-213 | a handler's pattern is statically `matched` iff it is a catch-all; its `fn` is set iff the handler is live for the stored error, and then names that handler |
| `Errors.Combine` | result.hpp:177-189 | the pattern-combining operator ors the `matched` flags, keeps the left `fn` whenever it is set, and, while the left pattern is not yet matched, otherwise takes the right `fn` |
| `Errors.Reduced` | result.hpp:218 | a `matched` fold always has its `fn` set (so the call after the `static_assert` never meets an empty `fn`), and `fn` names a position among the handlers |
| `Errors.Exhaustive` | result.hpp:219 | when the check passes, one handler applies whatever the stored error is |
| `Errors.ReducedIsFirstLive` | result.hpp:194-220 | the folded pattern is `matched` iff some handler is a catch-all; its `fn` is set iff some handler is live, and it is then the least live position |
| `Errors.MatchIndex` | result.hpp:215-221 | an exhaustive match invokes a live handler with no live handler before it |
| `Errors.Match` | result.hpp:215-240 | the value of `match` is the result of the first live handler in argument order, applied to the Error or to its kind |
| `Errors.CatchAllShadowsLaterHandlers` | result.hpp:178-188 | a list with a catch-all is exhaustive, and nothing after the first catch-all is ever chosen, however specific |
| `Errors.ExactHandlersAreNotExhaustive` | result.hpp:194-219 | a list of exact-kind handlers only, even one per kind, fails the exhaustiveness check |
| `Errors.DeadHandlerIsIgnored` | result.hpp:183-187 | inserting a handler that does not apply to the stored error anywhere in the list leaves the outcome of `match` unchanged |
| `Results.Result.HasValue` | result.hpp:350 | `has_value()` is true exactly for the `Ok` variant; when true only `value` is legal, when false only `error` |
| `Results.ConstructionSetsTag` | result.hpp:319-327 | construction from a value or the `Ok` tag gives `has_value()`; the `Err` tag gives `!has_value()`; the payload is the argument |
| `Results.ValueOr` | result.hpp:329-348 | `value_or(x)` is the stored value on success and `x` otherwise |
| `Results.AndThen` | result.hpp:360-368 | on success `and_then(f)` is `f(value())`; on error it is a new `Err` carrying the same error |
| `Results.OrElse` | result.hpp:462-478 | on success `or_else(f)` is the same Result; on error it is `f(error())` |
| `Results.AndThenShortCircuits` | result.hpp:360-368 | on an error, `and_then` gives the same outcome for every continuation (so `f` is never consulted), and the error is unchanged |
| `Results.OrElseShortCircuits` | result.hpp:462-469 | on a success, `or_else` returns the Result unchanged for every `f` |
| `Results.AndThenIdentities` | result.hpp:447-460 | `and_then` on `Ok(v)` is `f(v)`, and `and_then` with the `Ok` constructor returns the Result unchanged |
| `Results.AndThenAssociative` | result.hpp:447-460 | chaining `and_then(f).and_then(g)` equals `and_then(x => f(x).and_then(g))` |
| `Results.OrElseIdentities` | result.hpp:462-478 | `or_else` on `Err(e)` is `f(e)`, and `or_else` with the `Err` constructor returns the Result unchanged |
| `Results.OrElseAssociative` | result.hpp:462-478 | chaining `or_else(f).or_else(g)` equals `or_else(e => f(e).or_else(g))` |
| `Results.ResultObject.FromValue` | result.hpp:319-324 | the value and `Ok`-tag constructors store a success with that value |
| `Results.ResultObject.FromError` | result.hpp:326-327 | the `Err`-tag constructor stores an error with that payload |
| `Results.ResultObject.Assign` | result.hpp:315-317 | copy and move assignment replace the whole state |
| `Results.ResultObject.MoveValueOr` | result.hpp:343-348 | the rvalue `value_or` returns what `value_or` would; the tag is unchanged; a success keeps only the moved-from payload |
| `Results.ResultObject.MoveValue` | result.hpp:357 | the rvalue `value()` returns the value and leaves a success holding the moved-from payload |
| `Results.ResultObject.MoveError` | result.hpp:353 | the rvalue `error()` returns the error and leaves an error holding the moved-from payload |
| `Results.PatternOf` | result.hpp:392-428 | a handler's pattern sets `ValueMatched` iff it is an `Ok` handler for the value type and `ErrMatched` iff it is an `Err` handler for `E`; its `fn` is set iff the handler applies to this Result, and then names that handler |
| `Results.Combine` | result.hpp:375-387 | the pattern-combining operator ors both static flags, keeps the left `fn` whenever it is set, and, while the left pattern is not yet matched, otherwise takes the right `fn` |
| `Results.Reduced` | result.hpp:434 | if the fold has `ValueMatched` and the Result is a success, or `ErrMatched` and it is a failure, its `fn` is set; `fn` names a position among the handlers |
| `Results.Exhaustive` | result.hpp:435 | the check never passes with fewer than two handlers: the `Ok` and the `Err` handler it needs are distinct |
| `Results.ReducedIsFirstLive` | result.hpp:392-428 | `ValueMatched` iff there is an `Ok` handler for the value type; `ErrMatched` iff there is an `Err` handler for `E`; `fn` is set iff some handler is live, and it is then the least live position |
| `Results.ExhaustiveCoversEveryResult` | result.hpp:434-435 | when the check passes, some handler applies to every Result, success or failure, under either error view |
| `Results.MatchIndex` | result.hpp:431-437 | an exhaustive match invokes the first live handler; an `Ok` handler is chosen only on success, an `Err` handler only on error |
| `Results.Match` | result.hpp:431-445 | for `E` other than `Error`, the value of `match` is the first live handler applied to the value or the error; a `Result<T, Error>` must be matched with `MatchErased`, since here kind handlers never apply |
| `Results.KindHandlerConsultsErrorCast` | result.hpp:409-421 | on a failed `Result<T, Error>` an exact-kind handler applies exactly when `ErrorCast` to its kind succeeds; it never applies to a success, nor when the error type is not `Error` |
| `Results.MatchErased` | result.hpp:409-424 | for `E = Error`, the value of `match` is the first live handler, where an exact-kind `Err` handler is live iff `ErrorCast` succeeds |
| `Results.SuccessRunsFirstValueHandler` | result.hpp:397-402 | on success the chosen handler is the first `Ok` handler in the list |
| `Results.ErrorRunsFirstErrorHandler` | result.hpp:403-408 | on error, for `E` other than `Error`, the chosen handler is the first `Err` handler in the list |
| `Arithmetic.RangeChecked` | example.cpp:23 | an outcome gives success iff it lies in [0, 1000000], and `RangeError` otherwise |
| `Arithmetic.ElementaryArithmeticFromZeroToMillion` | example.cpp:12-39 | a success value always lies in [0, 1000000]; every error holds one of `OutOfRange`, `Range`, `DivideByZero` or `InvalidArgument` |
| `Arithmetic.ArgumentsCheckedFirst` | example.cpp:14-17 | an argument outside [0, 1000000] gives `OutOfRangeError` for every operator, including unknown ones |
| `Arithmetic.RingOperatorsAreRangeChecked` | example.cpp:21-29 | for `+`, `-` and `*` on in-range arguments, success holds iff the exact outcome is in range; the value is that outcome; otherwise the error is `RangeError` |
| `Arithmetic.DivisionByZeroIsReported` | example.cpp:30-33 | `/` with divisor 0 gives `DivideByZeroError` |
| `Arithmetic.DivisionAlwaysSucceeds` | example.cpp:34-35 | `/` with a non-zero divisor and in-range arguments always succeeds with `x / y` |
| `Arithmetic.UnknownOperatorIsInvalid` | example.cpp:36-37 | any operator other than `+ - * /` on in-range arguments gives `InvalidArgumentError` |
| `Arithmetic.WrapInt32` | example.cpp:28 | the 32-bit product wrap: the result lies in the `int` range, differs from the exact value by a multiple of 2^32, and equals it when it already fits |
| `Arithmetic.ElementaryArithmeticInt32` | example.cpp:27-29 | with a wrapping 32-bit product, only `*` can differ from the exact model |
| `Arithmetic.WrappedProductIsAccepted` | example.cpp:28 | `('*', 65536, 65536)` has a true product above one million, yet the wrapping reading returns success 0 |
| `Arithmetic.Int32AgreesWithoutOverflow` | example.cpp:21-29 | whenever the product fits in a 32-bit `int`, the wrapping reading and the exact model agree |
| `Demo.SumMatchedGivesSeven` | example.cpp:55-57 | `('+', 4, 3)` matched with an `Ok` handler and a catch-all yields 7 |
| `Demo.UnknownOperatorFails` | example.cpp:78 | `('^', 1, 0)` gives `InvalidArgumentError` |
| `Demo.ExactHandlerBeforeCatchAllRuns` | example.cpp:79-88 | with handlers `[OutOfRange, invalid_argument_handler, catch-all]`, `invalid_argument_handler` runs |
| `Demo.CatchAllBeforeExactHandlerRuns` | example.cpp:90-96 | with handlers `[catch-all, invalid_argument_handler]`, the catch-all runs |
| `Demo.ChainEndsAtTen` | example.cpp:98-118 | the chain goes `DivideByZero`, the `and_then` is skipped, recovery gives 1, then 10; the last `or_else` is skipped; `value()` is 10 |
| `Demo.MoveResult` | example.cpp:47-52 | the Result of 100 '0's is non-empty before the move; afterwards it still reports success and `value_or("")` is empty; the moved-out string is the original |

## Left out

- The template machinery is not modelled: `MemberFunctionPointerTraits`, `FunctorTraits`, `Pattern`, the `Ok`/`Err` `operator=` overloads, `std::common_type` and `std::function` (result.hpp:15-131). These are C++ type deduction. Each handler's parameter type is given as data (`CatchAll`/`Exact`/`OnValue`/`OnError`/`OnKind`/`Inert`), and all handlers share one return type `R`.
- The reference-returning shortcut of `operator|` is not modelled. Once matched, it returns `*this` by reference (result.hpp:179-180, 377-378), which seems to stop a catch-all followed by two or more handlers from compiling. The model folds such lists as intended.
- `std::any` erasure is replaced by the `Kind` tag. The moved-from probing at result.hpp:202 and 415 is not modelled; for the empty kind structs it has no effect.
- The `&`, `const&` and `&&` overloads are not distinguished. The one exception is that moving a payload out keeps the tag (`ResultObject`, `ErrorObject.MoveCast`).
- `Results.ResultObject.MoveValueOr`: a moved-from payload is treated as a value the caller supplies (`emptied`). For `std::string` the demo uses the empty string; the C++ standard leaves a moved-from string unspecified, and common libraries make it empty.
- `Results.ResultObject.MoveValue` and `Results.ResultObject.MoveError` require the right variant. The C++ code makes `std::get` throw `std::bad_variant_access` instead, and the model has no exceptions.
- The `value()`/`error()` accessors on lvalues are the datatype destructors `value`/`error`. Calling them on the wrong variant is likewise excluded rather than modelled as a throw.
- `TraceableError` and `TraceableImpl` (result.hpp:285-301) are not modelled: they are an empty placeholder with no behaviour.
- All `std::cout` output in example.cpp is not modelled. A handler invocation is represented by the handler's position or its return value.
- The `double` instantiation (example.cpp:60-76) is not modelled, because it is floating point. Only `T = int` is modelled.
- `Arithmetic.ElementaryArithmeticFromZeroToMillion` computes on unbounded integers. For `'*'`, the C++ `int` product of in-range arguments can overflow (undefined behaviour); see Findings.
- An `Inert`-style handler with an unusable parameter type, such as a non-const lvalue reference to a kind, is never live. Handlers with incompatible return types are a build error in C++ and cannot be expressed here.

## Findings

| source | as written | input that shows it | evidently intended | confidence | as-written member | corrected member |
|---|---|---|---|---|---|---|
| example.cpp:28 | `res = x * y` on 32-bit `int` after checking only that `x` and `y` are in [0, 1000000]; the product can exceed `INT_MAX` (undefined behaviour, two's-complement wrap in practice) | `('*', 65536, 65536)`: the product 2^32 wraps to 0, which passes the range check and is returned as success 0 | report `RangeError` whenever the exact product exceeds 1000000 | medium; not executed | `Arithmetic.WrappedProductIsAccepted` (over `Arithmetic.ElementaryArithmeticInt32`) | `Arithmetic.ElementaryArithmeticFromZeroToMillion` (with `Arithmetic.RingOperatorsAreRangeChecked`) |
