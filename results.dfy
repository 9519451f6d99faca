/**
 * `Result<Tp, E>` of result.hpp: a two-variant tagged union of a success
 * value and an error, with `value_or`, `and_then`, `or_else` and an ordered,
 * exhaustiveness-checked `match`.
 */
module Results {

  import opened Options
  import opened Kinds
  import Errors

  /**
   * Exactly one variant is live. `Ok` is built by the value constructors and
   * the `Ok` tag, `Err` by the `Err` tag; there is no default constructor.
   */
  datatype Result<T, E> = Ok(value: T) | Err(error: E) {

    /** `has_value`: says which accessor is legal, `value` when true and `error` when false. */
    predicate HasValue()
      ensures HasValue() != Err?
      ensures HasValue() ==> this == Ok(value)
      ensures !HasValue() ==> this == Err(error)
    {
      Ok?
    }
  }

  lemma ConstructionSetsTag<T, E>(v: T, e: E)
    ensures Result<T, E>.Ok(v).HasValue() && Result<T, E>.Ok(v).value == v
    ensures !Result<T, E>.Err(e).HasValue() && Result<T, E>.Err(e).error == e
  {
  }

  /** `value_or`: the stored value on success, the fallback otherwise. */
  function ValueOr<T, E>(r: Result<T, E>, other: T): (x: T)
    ensures r.HasValue() ==> x == r.value
    ensures !r.HasValue() ==> x == other
  {
    match r
    case Ok(v) => v
    case Err(_) => other
  }

  /** `and_then`: bind on the success side; an error is carried over. */
  function AndThen<T, E, U>(r: Result<T, E>, f: T -> Result<U, E>): (s: Result<U, E>)
    ensures r.HasValue() ==> s == f(r.value)
    ensures !r.HasValue() ==> s == Err(r.error)
  {
    match r
    case Ok(v) => f(v)
    case Err(e) => Err(e)
  }

  /** `or_else`: recovery on the error side; a success is returned as it is. */
  function OrElse<T, E>(r: Result<T, E>, f: E -> Result<T, E>): (s: Result<T, E>)
    ensures r.HasValue() ==> s == r
    ensures !r.HasValue() ==> s == f(r.error)
  {
    match r
    case Ok(_) => r
    case Err(e) => f(e)
  }

  /** On an error, `and_then` never consults `f`: any two continuations agree. */
  lemma AndThenShortCircuits<T, E, U>(r: Result<T, E>, f: T -> Result<U, E>, g: T -> Result<U, E>)
    requires !r.HasValue()
    ensures AndThen(r, f) == AndThen(r, g)
    ensures !AndThen(r, f).HasValue() && AndThen(r, f).error == r.error
  {
  }

  /** On a success, `or_else` never consults `f`. */
  lemma OrElseShortCircuits<T, E>(r: Result<T, E>, f: E -> Result<T, E>)
    requires r.HasValue()
    ensures OrElse(r, f) == r
  {
  }

  lemma AndThenIdentities<T, E, U>(v: T, f: T -> Result<U, E>, r: Result<T, E>)
    ensures AndThen(Ok(v), f) == f(v)
    ensures AndThen(r, x => Ok(x)) == r
  {
  }

  lemma AndThenAssociative<T, E, U, V>(r: Result<T, E>, f: T -> Result<U, E>, g: U -> Result<V, E>)
    ensures AndThen(AndThen(r, f), g) == AndThen(r, x => AndThen(f(x), g))
  {
  }

  lemma OrElseIdentities<T, E>(e: E, f: E -> Result<T, E>, r: Result<T, E>)
    ensures OrElse(Err(e), f) == f(e)
    ensures OrElse(r, x => Err(x)) == r
  {
  }

  lemma OrElseAssociative<T, E>(r: Result<T, E>, f: E -> Result<T, E>, g: E -> Result<T, E>)
    ensures OrElse(OrElse(r, f), g) == OrElse(r, x => OrElse(f(x), g))
  {
  }

  /**
   * A `Result` object. The rvalue overloads of `value_or`, `value` and
   * `error` move the payload out: the variant index stays as it was and the
   * payload is left in its moved-from state, given here as `emptied`.
   */
  class ResultObject<T, E> {

    var state: Result<T, E>

    /** The value constructors and the `Ok` tag constructor. */
    constructor FromValue(v: T)
      ensures state == Ok(v)
    {
      state := Ok(v);
    }

    /** The `Err` tag constructor. */
    constructor FromError(e: E)
      ensures state == Err(e)
    {
      state := Err(e);
    }

    /** The defaulted copy and move assignments. */
    method Assign(other: Result<T, E>)
      modifies this
      ensures state == other
    {
      state := other;
    }

    /** `std::move(res).value_or(other)`. */
    method MoveValueOr(other: T, emptied: T) returns (x: T)
      modifies this
      ensures x == ValueOr(old(state), other)
      ensures state.HasValue() == old(state).HasValue()
      ensures old(state).HasValue() ==> state == Ok(emptied)
      ensures !old(state).HasValue() ==> state == old(state)
    {
      x := ValueOr(state, other);
      if state.Ok? {
        state := Ok(emptied);
      }
    }

    /** `std::move(res).value()`; the wrong variant is a caller error. */
    method MoveValue(emptied: T) returns (x: T)
      requires state.HasValue()
      modifies this
      ensures x == old(state).value
      ensures state == Ok(emptied)
    {
      x := state.value;
      state := Ok(emptied);
    }

    /** `std::move(res).error()`; the wrong variant is a caller error. */
    method MoveError(emptied: E) returns (e: E)
      requires !state.HasValue()
      modifies this
      ensures e == old(state).error
      ensures state == Err(emptied)
    {
      e := state.error;
      state := Err(emptied);
    }
  }

  /**
   * A handler passed to `Result::match`, described by its tag and parameter
   * type: an `Ok` handler accepting the value type, an `Err` handler
   * accepting `E`, an `Err` handler taking one kind by value (which applies
   * only when `E` is `Error`), or a handler no conversion reaches.
   */
  datatype Handler<!T, !E, R> =
    | OnValue(onValue: T -> R)
    | OnError(onError: E -> R)
    | OnKind(kind: Kind, onKind: Kind -> R)
    | Inert

  /**
   * Whether a handler's `fn` is set. `erased` is the stored error seen as an
   * `Error`: `Some` only when `E` is `Error`, `None` for any other `E`.
   */
  predicate Live<T, E, R>(r: Result<T, E>, erased: Option<Errors.Error>, h: Handler<T, E, R>) {
    match h
    case OnValue(_) => r.HasValue()
    case OnError(_) => !r.HasValue()
    case OnKind(k, _) => !r.HasValue() && erased.Some? && Errors.ErrorCast(erased.value, k).Some?
    case Inert => false
  }

  /** `InnerPattern`: the flags `ValueMatched`, `ErrMatched` and the handler position in `fn`. */
  datatype Pattern = Pattern(valueMatched: bool, errMatched: bool, fn: Option<nat>)

  /** `match_pattern` for the handler at position `i`. */
  function PatternOf<T, E, R>(r: Result<T, E>, erased: Option<Errors.Error>, h: Handler<T, E, R>, i: nat): (p: Pattern)
    ensures p.valueMatched <==> h.OnValue?
    ensures p.errMatched <==> h.OnError?
    ensures p.fn.Some? <==> Live(r, erased, h)
    ensures p.fn.Some? ==> p.fn.value == i
  {
    match h
    case OnValue(_) => Pattern(true, false, if r.HasValue() then Some(i) else None)
    case OnError(_) => Pattern(false, true, if r.HasValue() then None else Some(i))
    case OnKind(k, _) =>
      Pattern(false, false, if Live(r, erased, h) then Some(i) else None)
    case Inert => Pattern(false, false, None)
  }

  /** `InnerPattern::operator|`: the left `fn` is kept whenever it is set. */
  function Combine(x: Pattern, y: Pattern): (c: Pattern)
    ensures c.valueMatched == (x.valueMatched || y.valueMatched)
    ensures c.errMatched == (x.errMatched || y.errMatched)
    ensures x.fn.Some? ==> c.fn == x.fn
    ensures !(x.valueMatched && x.errMatched) && x.fn.None? ==> c.fn == y.fn
  {
    if x.valueMatched && x.errMatched then x
    else
      var vm := x.valueMatched || y.valueMatched;
      var em := x.errMatched || y.errMatched;
      if x.fn.None? && y.fn.Some? then Pattern(vm, em, y.fn) else Pattern(vm, em, x.fn)
  }

  /** The left fold `(... | match_pattern(*this, hs[i]))`. */
  function Reduced<T, E, R>(r: Result<T, E>, erased: Option<Errors.Error>, hs: seq<Handler<T, E, R>>): (p: Pattern)
    requires |hs| > 0
    ensures p.valueMatched && r.HasValue() ==> p.fn.Some?
    ensures p.errMatched && !r.HasValue() ==> p.fn.Some?
    ensures p.fn.Some? ==> p.fn.value < |hs|
    decreases |hs|
  {
    if |hs| == 1 then PatternOf(r, erased, hs[0], 0)
    else Combine(Reduced(r, erased, hs[..|hs| - 1]), PatternOf(r, erased, hs[|hs| - 1], |hs| - 1))
  }

  predicate HasValueHandler<T, E, R>(hs: seq<Handler<T, E, R>>) {
    exists i :: 0 <= i < |hs| && hs[i].OnValue?
  }

  predicate HasErrorHandler<T, E, R>(hs: seq<Handler<T, E, R>>) {
    exists i :: 0 <= i < |hs| && hs[i].OnError?
  }

  /**
   * The `static_assert` of `match`: some `Ok` handler accepts the value type
   * and some `Err` handler accepts `E` itself. No handler is both, so a
   * single handler never passes.
   */
  predicate Exhaustive<T, E, R>(hs: seq<Handler<T, E, R>>)
    ensures Exhaustive(hs) ==> |hs| >= 2
  {
    HasValueHandler(hs) && HasErrorHandler(hs)
  }

  /** Reference selection: `i` is the least position of a live handler. */
  predicate IsFirstLive<T, E, R>(r: Result<T, E>, erased: Option<Errors.Error>, hs: seq<Handler<T, E, R>>, i: nat) {
    i < |hs| && Live(r, erased, hs[i]) && forall j :: 0 <= j < i ==> !Live(r, erased, hs[j])
  }

  lemma {:induction false} ReducedIsFirstLive<T, E, R>(r: Result<T, E>, erased: Option<Errors.Error>, hs: seq<Handler<T, E, R>>)
    requires |hs| > 0
    ensures Reduced(r, erased, hs).valueMatched <==> HasValueHandler(hs)
    ensures Reduced(r, erased, hs).errMatched <==> HasErrorHandler(hs)
    ensures Reduced(r, erased, hs).fn.Some? <==> exists i :: 0 <= i < |hs| && Live(r, erased, hs[i])
    ensures Reduced(r, erased, hs).fn.Some? ==> IsFirstLive(r, erased, hs, Reduced(r, erased, hs).fn.value)
    decreases |hs|
  {
    var n := |hs|;
    if n > 1 {
      var front := hs[..n - 1];
      ReducedIsFirstLive(r, erased, front);
      assert forall j :: 0 <= j < n - 1 ==> front[j] == hs[j];
      var x := Reduced(r, erased, front);
      if x.valueMatched && x.errMatched {
        var a :| 0 <= a < n - 1 && front[a].OnValue?;
        var b :| 0 <= b < n - 1 && front[b].OnError?;
        assert Live(r, erased, hs[a]) || Live(r, erased, hs[b]);
      }
      if HasValueHandler(hs) && !x.valueMatched {
        var a :| 0 <= a < n && hs[a].OnValue?;
        assert a == n - 1;
      }
      if HasErrorHandler(hs) && !x.errMatched {
        var b :| 0 <= b < n && hs[b].OnError?;
        assert b == n - 1;
      }
    }
  }

  /** The position of the handler `Result::match` invokes. */
  function MatchIndex<T, E, R>(r: Result<T, E>, erased: Option<Errors.Error>, hs: seq<Handler<T, E, R>>): (i: nat)
    requires Exhaustive(hs)
    ensures IsFirstLive(r, erased, hs, i)
    ensures hs[i].OnValue? ==> r.HasValue()
    ensures hs[i].OnError? || hs[i].OnKind? ==> !r.HasValue()
  {
    ReducedIsFirstLive(r, erased, hs);
    var a :| 0 <= a < |hs| && hs[a].OnValue?;
    var b :| 0 <= b < |hs| && hs[b].OnError?;
    assert Live(r, erased, hs[a]) || Live(r, erased, hs[b]);
    Reduced(r, erased, hs).fn.value
  }

  /** What the `static_assert` guarantees: whatever the state, some handler applies. */
  lemma ExhaustiveCoversEveryResult<T, E, R>(r: Result<T, E>, erased: Option<Errors.Error>, hs: seq<Handler<T, E, R>>)
    requires Exhaustive(hs)
    ensures exists i :: 0 <= i < |hs| && Live(r, erased, hs[i])
  {
    var i := MatchIndex(r, erased, hs);
  }

  /** Calls a live handler with the value, the error, or the exact kind. */
  function Invoke<T, E, R>(r: Result<T, E>, erased: Option<Errors.Error>, h: Handler<T, E, R>): R
    requires Live(r, erased, h)
  {
    match h
    case OnValue(f) => f(r.value)
    case OnError(f) => f(r.error)
    case OnKind(k, f) => f(k)
  }

  /**
   * `Result::match` for an error type other than `Error`: kind handlers are
   * inert. A `Result<T, Error>` goes through `MatchErased` instead, where
   * kind handlers consult `ErrorCast`.
   */
  function Match<T, E, R>(r: Result<T, E>, hs: seq<Handler<T, E, R>>): (x: R)
    requires Exhaustive(hs)
    ensures forall i: nat :: IsFirstLive(r, None, hs, i) ==> x == Invoke(r, None, hs[i])
  {
    Invoke(r, None, hs[MatchIndex(r, None, hs)])
  }

  /** The view of a `Result<T, Error>`'s error that exact-kind handlers consult. */
  function ErasedView<T>(r: Result<T, Errors.Error>): (v: Option<Errors.Error>)
    ensures v.Some? <==> !r.HasValue()
    ensures v.Some? ==> v.value == r.error
  {
    if r.HasValue() then None else Some(r.error)
  }

  /** `Result::match` when the error type is `Error`: kind handlers consult `ErrorCast`. */
  function MatchErased<T, R>(r: Result<T, Errors.Error>, hs: seq<Handler<T, Errors.Error, R>>): (x: R)
    requires Exhaustive(hs)
    ensures forall i: nat :: IsFirstLive(r, ErasedView(r), hs, i) ==> x == Invoke(r, ErasedView(r), hs[i])
  {
    Invoke(r, ErasedView(r), hs[MatchIndex(r, ErasedView(r), hs)])
  }

  /**
   * An exact-kind handler applies to a failed `Result<T, Error>` exactly when
   * `ErrorCast` to its kind succeeds, never to a success, and never when the
   * error type is not `Error` (the view `Match` passes).
   */
  lemma KindHandlerConsultsErrorCast<T, R>(r: Result<T, Errors.Error>, k: Kind, f: Kind -> R)
    ensures !r.HasValue() ==> (Live(r, ErasedView(r), OnKind(k, f)) <==> Errors.ErrorCast(r.error, k).Some?)
    ensures r.HasValue() ==> !Live(r, ErasedView(r), OnKind(k, f))
    ensures !Live(r, None, OnKind(k, f))
  {
  }

  /** On a success the first `Ok` handler runs, whatever precedes it. */
  lemma {:induction false} SuccessRunsFirstValueHandler<T, E, R>(r: Result<T, E>, erased: Option<Errors.Error>, hs: seq<Handler<T, E, R>>)
    requires Exhaustive(hs) && r.HasValue()
    ensures hs[MatchIndex(r, erased, hs)].OnValue?
    ensures forall j :: 0 <= j < MatchIndex(r, erased, hs) ==> !hs[j].OnValue?
  {
    var m := MatchIndex(r, erased, hs);
    assert Live(r, erased, hs[m]);
    forall j | 0 <= j < m ensures !hs[j].OnValue? {
      assert !Live(r, erased, hs[j]);
    }
  }

  /** For an error type other than `Error`, the first `Err` handler runs on an error. */
  lemma {:induction false} ErrorRunsFirstErrorHandler<T, E, R>(r: Result<T, E>, hs: seq<Handler<T, E, R>>)
    requires Exhaustive(hs) && !r.HasValue()
    ensures hs[MatchIndex(r, None, hs)].OnError?
    ensures forall j :: 0 <= j < MatchIndex(r, None, hs) ==> !hs[j].OnError?
  {
    var m := MatchIndex(r, None, hs);
    assert Live(r, None, hs[m]);
    forall j | 0 <= j < m ensures !hs[j].OnError? {
      assert !Live(r, None, hs[j]);
    }
  }
}
