/**
 * The scenarios of example.cpp's `main` and `MoveResult`, with every handler
 * invocation represented by the handler's position or its returned value.
 */
module Demo {

  import opened Kinds
  import Errors
  import opened Results
  import opened Arithmetic

  /** `('+', 4, 3)` matched with an `Ok` handler and a catch-all gives 7. */
  lemma SumMatchedGivesSeven()
    ensures var hs := [OnValue((v: int) => v), OnError((e: Errors.Error) => 0)];
      Exhaustive(hs) && MatchErased(ElementaryArithmeticFromZeroToMillion('+', 4, 3), hs) == 7
  {
    var hs := [OnValue((v: int) => v), OnError((e: Errors.Error) => 0)];
    assert hs[0].OnValue? && hs[1].OnError?;
  }

  /** `('^', 1, 0)` fails with `InvalidArgument`, although `x` and `y` are in range. */
  lemma UnknownOperatorFails()
    ensures ElementaryArithmeticFromZeroToMillion('^', 1, 0) == Err(Errors.Holding(InvalidArgument))
  {
  }

  /**
   * Handlers `[OutOfRange, invalid_argument_handler, catch-all]` on the
   * `InvalidArgument` error: the exact handler at position 1 runs.
   */
  lemma ExactHandlerBeforeCatchAllRuns()
    ensures var hs := [Errors.Exact(OutOfRange, (k: Kind) => 0), Errors.Exact(InvalidArgument, (k: Kind) => 0),
                       Errors.CatchAll((e: Errors.Error) => 0)];
      Errors.Exhaustive(hs) && Errors.MatchIndex(Errors.Holding(InvalidArgument), hs) == 1
  {
    var hs := [Errors.Exact(OutOfRange, (k: Kind) => 0), Errors.Exact(InvalidArgument, (k: Kind) => 0),
               Errors.CatchAll((e: Errors.Error) => 0)];
    assert hs[2].CatchAll?;
  }

  /**
   * Handlers `[catch-all, invalid_argument_handler]` on the same error: the
   * catch-all at position 0 runs and the exact handler after it never does.
   */
  lemma CatchAllBeforeExactHandlerRuns()
    ensures var hs := [Errors.CatchAll((e: Errors.Error) => 0), Errors.Exact(InvalidArgument, (k: Kind) => 0)];
      Errors.Exhaustive(hs) && Errors.MatchIndex(Errors.Holding(InvalidArgument), hs) == 0
  {
    var hs := [Errors.CatchAll((e: Errors.Error) => 0), Errors.Exact(InvalidArgument, (k: Kind) => 0)];
    assert hs[0].CatchAll?;
  }

  /** The `or_else`/`and_then` chain of `main`, step by step. */
  function Recover(op: char, x: int): Errors.Error -> Result<int, Errors.Error> {
    (e: Errors.Error) => ElementaryArithmeticFromZeroToMillion(op, x, 0)
  }

  lemma ChainEndsAtTen()
    ensures var s0 := ElementaryArithmeticFromZeroToMillion('^', 1, 0);
      var s1 := OrElse(s0, Recover('/', 1));
      var s2 := AndThen(s1, (v: int) => Result<int, Errors.Error>.Ok(v));
      var s3 := OrElse(s2, Recover('+', 1));
      var s4 := AndThen(s3, (v: int) => ElementaryArithmeticFromZeroToMillion('*', v, 10));
      var s5 := OrElse(s4, (e: Errors.Error) => Result<int, Errors.Error>.Ok(-1));
      && s1 == Err(Errors.Holding(DivideByZero))
      && s2 == s1
      && s3 == Ok(1)
      && s4 == Ok(10)
      && s5 == s4
      && s5.value == 10
  {
  }

  /**
   * `MoveResult`: a `Result<std::string, int>` holding 100 '0's is not empty
   * before `std::move(res).value_or("")`; afterwards it still reports success
   * and its payload is the moved-from, empty string.
   */
  method MoveResult() returns (emptyBefore: bool, emptyAfter: bool, successAfter: bool, moved: string)
    ensures !emptyBefore && emptyAfter && successAfter
    ensures moved == seq(100, _ => '0')
  {
    var res := new ResultObject<string, int>.FromValue(seq(100, _ => '0'));
    emptyBefore := |ValueOr(res.state, "")| == 0;
    moved := res.MoveValueOr("", "");
    emptyAfter := |ValueOr(res.state, "")| == 0;
    successAfter := res.state.HasValue();
  }
}
