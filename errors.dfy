/**
 * The type-erased `Error` of result.hpp: it stores zero or one error value of
 * any kind, offers an exact-kind downcast (`ErrorCast`) and an ordered,
 * exhaustiveness-checked `match` over a list of handlers.
 */
module Errors {

  import opened Options
  import opened Kinds

  /** An Error holds nothing (default construction) or exactly one kind. */
  datatype Error = Empty | Holding(kind: Kind) {

    /** `has_value`: true exactly when the cast to some kind succeeds. */
    predicate HasValue()
      ensures HasValue() <==> exists k :: ErrorCast(this, k).Some?
    {
      if Holding? then assert ErrorCast(this, kind).Some?; true else false
    }
  }

  /**
   * `ErrorCast<K>`: `std::any_cast` to exactly `K`. It succeeds only when the
   * stored kind is `K` itself; a base struct of the stored kind does not match.
   */
  function ErrorCast(e: Error, k: Kind): (r: Option<Kind>)
    ensures r.Some? <==> e == Holding(k)
    ensures r.Some? ==> r.value == k
  {
    match e
    case Empty => None
    case Holding(stored) => if stored == k then Some(stored) else None
  }

  lemma CastRoundTrip(k: Kind)
    ensures Holding(k).HasValue()
    ensures ErrorCast(Holding(k), k) == Some(k)
  {
  }

  lemma CastOtherKindIsEmpty(k: Kind, other: Kind)
    requires other != k
    ensures ErrorCast(Holding(k), other) == None
  {
  }

  /** No base-class fallback: casting a derived kind to its base struct fails. */
  lemma CastToBaseIsEmpty(k: Kind)
    requires Base(k).Some?
    ensures ErrorCast(Holding(k), Base(k).value) == None
  {
  }

  lemma CastOfEmptyIsEmpty(k: Kind)
    ensures !Empty.HasValue()
    ensures ErrorCast(Empty, k) == None
  {
  }

  /**
   * An `Error` object. Assignment from a kind overwrites the stored value;
   * casting out of an rvalue moves the (empty) kind struct out, which leaves
   * the `std::any` holding a value of the same kind.
   */
  class ErrorObject {

    var content: Error

    constructor Default()
      ensures content == Empty
    {
      content := Empty;
    }

    constructor Of(k: Kind)
      ensures content == Holding(k)
    {
      content := Holding(k);
    }

    /** `operator=(Arg&&)` for a kind value. */
    method Assign(k: Kind)
      modifies this
      ensures content == Holding(k)
    {
      content := Holding(k);
    }

    /** The defaulted copy and move assignments. */
    method AssignFrom(other: Error)
      modifies this
      ensures content == other
    {
      content := other;
    }

    /** `ErrorCast<K>(Error&&)`. */
    method MoveCast(k: Kind) returns (r: Option<Kind>)
      modifies this
      ensures r == ErrorCast(old(content), k)
      ensures content == old(content)
    {
      r := ErrorCast(content, k);
    }
  }

  /**
   * A handler passed to `Error::match`, described by its parameter type:
   * one that accepts `Error` itself (a catch-all), one that takes a kind by
   * value, or one whose parameter neither conversion reaches (it never runs).
   */
  datatype Handler<R> =
    | CatchAll(onError: Error -> R)
    | Exact(kind: Kind, onKind: Kind -> R)
    | Inert

  /** A handler's `fn` is set when it is a catch-all or its kind is stored. */
  predicate Live<R>(e: Error, h: Handler<R>) {
    match h
    case CatchAll(_) => true
    case Exact(k, _) => ErrorCast(e, k).Some?
    case Inert => false
  }

  /**
   * `InnerPattern`: the compile-time flag `matched` and the runtime `fn`,
   * here the position of the handler that `fn` would call.
   */
  datatype Pattern = Pattern(matched: bool, fn: Option<nat>)

  /** `match_pattern` for the handler at position `i`. */
  function PatternOf<R>(e: Error, h: Handler<R>, i: nat): (p: Pattern)
    ensures p.matched <==> h.CatchAll?
    ensures p.fn.Some? <==> Live(e, h)
    ensures p.fn.Some? ==> p.fn.value == i
  {
    match h
    case CatchAll(_) => Pattern(true, Some(i))
    case Exact(k, _) => Pattern(false, if ErrorCast(e, k).Some? then Some(i) else None)
    case Inert => Pattern(false, None)
  }

  /** `InnerPattern::operator|`: the left `fn` is kept whenever it is set. */
  function Combine(x: Pattern, y: Pattern): (r: Pattern)
    ensures r.matched == (x.matched || y.matched)
    ensures x.fn.Some? ==> r.fn == x.fn
    ensures !x.matched && x.fn.None? ==> r.fn == y.fn
  {
    if x.matched then x
    else if x.fn.None? && y.fn.Some? then Pattern(x.matched || y.matched, y.fn)
    else Pattern(x.matched || y.matched, x.fn)
  }

  /** The left fold `(... | match_pattern(*this, hs[i]))`. */
  function Reduced<R>(e: Error, hs: seq<Handler<R>>): (p: Pattern)
    requires |hs| > 0
    ensures p.matched ==> p.fn.Some?
    ensures p.fn.Some? ==> p.fn.value < |hs|
    decreases |hs|
  {
    if |hs| == 1 then PatternOf(e, hs[0], 0)
    else Combine(Reduced(e, hs[..|hs| - 1]), PatternOf(e, hs[|hs| - 1], |hs| - 1))
  }

  /**
   * The `static_assert` of `match_impl`: some handler accepts `Error` itself,
   * so one handler applies whatever the stored error is.
   */
  predicate Exhaustive<R>(hs: seq<Handler<R>>)
    ensures Exhaustive(hs) ==> exists i :: 0 <= i < |hs| && forall e: Error :: Live(e, hs[i])
  {
    exists i :: 0 <= i < |hs| && hs[i].CatchAll?
  }

  /** Reference selection: `i` is the least position of a live handler. */
  predicate IsFirstLive<R>(e: Error, hs: seq<Handler<R>>, i: nat) {
    i < |hs| && Live(e, hs[i]) && forall j :: 0 <= j < i ==> !Live(e, hs[j])
  }

  lemma {:induction false} ReducedIsFirstLive<R>(e: Error, hs: seq<Handler<R>>)
    requires |hs| > 0
    ensures Reduced(e, hs).matched <==> Exhaustive(hs)
    ensures Reduced(e, hs).fn.Some? <==> exists i :: 0 <= i < |hs| && Live(e, hs[i])
    ensures Reduced(e, hs).fn.Some? ==> IsFirstLive(e, hs, Reduced(e, hs).fn.value)
    decreases |hs|
  {
    var n := |hs|;
    if n > 1 {
      var front := hs[..n - 1];
      ReducedIsFirstLive(e, front);
      assert forall j :: 0 <= j < n - 1 ==> front[j] == hs[j];
      var x := Reduced(e, front);
      if x.matched {
        var c :| 0 <= c < n - 1 && front[c].CatchAll?;
        assert Live(e, hs[c]);
      }
      if Exhaustive(hs) && !x.matched {
        var c :| 0 <= c < n && hs[c].CatchAll?;
        assert c == n - 1;
      }
    }
  }

  /** The position of the handler `Error::match` invokes. */
  function MatchIndex<R>(e: Error, hs: seq<Handler<R>>): (i: nat)
    requires Exhaustive(hs)
    ensures IsFirstLive(e, hs, i)
  {
    ReducedIsFirstLive(e, hs);
    Reduced(e, hs).fn.value
  }

  /** Calls a live handler: a catch-all receives the whole Error, an exact one its kind. */
  function Invoke<R>(e: Error, h: Handler<R>): R
    requires Live(e, h)
  {
    match h
    case CatchAll(f) => f(e)
    case Exact(k, f) => f(k)
  }

  /** `Error::match`: the result of the first live handler in argument order. */
  function Match<R>(e: Error, hs: seq<Handler<R>>): (r: R)
    requires Exhaustive(hs)
    ensures forall i: nat :: IsFirstLive(e, hs, i) ==> r == Invoke(e, hs[i])
  {
    Invoke(e, hs[MatchIndex(e, hs)])
  }

  /** A catch-all is chosen unless an earlier handler exactly matches. */
  lemma CatchAllShadowsLaterHandlers<R>(e: Error, hs: seq<Handler<R>>, c: nat)
    requires c < |hs| && hs[c].CatchAll?
    ensures Exhaustive(hs)
    ensures MatchIndex(e, hs) <= c
  {
  }

  /** Exact-kind handlers alone never pass the exhaustiveness check. */
  lemma ExactHandlersAreNotExhaustive<R>(hs: seq<Handler<R>>)
    requires forall i :: 0 <= i < |hs| ==> hs[i].Exact?
    ensures !Exhaustive(hs)
  {
  }

  /** Inserting a handler that does not apply to `e` changes nothing. */
  lemma {:induction false} DeadHandlerIsIgnored<R>(e: Error, hs: seq<Handler<R>>, p: nat, h: Handler<R>)
    requires Exhaustive(hs) && p <= |hs| && !Live(e, h)
    ensures Exhaustive(hs[..p] + [h] + hs[p..])
    ensures Match(e, hs[..p] + [h] + hs[p..]) == Match(e, hs)
  {
    var hs' := hs[..p] + [h] + hs[p..];
    assert forall j :: 0 <= j < p ==> hs'[j] == hs[j];
    assert forall j :: p < j < |hs'| ==> hs'[j] == hs[j - 1];
    var c :| 0 <= c < |hs| && hs[c].CatchAll?;
    var c' := if c < p then c else c + 1;
    assert hs'[c'].CatchAll?;
    var m := MatchIndex(e, hs);
    var m' := if m < p then m else m + 1;
    assert IsFirstLive(e, hs', m');
  }
}
