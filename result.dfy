/**
 * The `Result<T>` error monad of the ResultMonad library: a value that is
 * either a success carrying a value or a failure carrying an error text,
 * with the combinators the tags-cloud pipeline threads its errors through.
 *
 * C# callbacks that may throw are modelled by what one invocation does
 * (`Outcome`): return a value or throw an exception with a message.
 */
module ResultMonad {

  /** The unit type; its one value stands for the null of type `None` that `Result.Ok()` carries. */
  datatype None = None

  /** A C# string reference that may be null. */
  datatype Nullable<T> = Null | NonNull(value: T)

  /** What one invocation of a callback does: return normally or throw. */
  datatype Outcome<T> = Returns(value: T) | Throws(message: string)

  /**
   * `Result<T>`. The C# struct holds an `Error` string and a `Value`; it is a
   * success exactly when `Error` is null, so a success has no error text and
   * a failure's value is never observed.
   */
  datatype Result<T> = Success(value: T) | Failure(error: string) {
    /** `IsSuccess`: there is no error. */
    predicate IsSuccess() {
      Success?
    }
  }

  /**
   * The effect of a combinator that runs a handler for its side effect:
   * the arguments the handler was invoked with, in order, and what the
   * combinator then did (returned a value, or let the handler's exception out).
   */
  datatype Invoked<A, T> = Invoked(calls: seq<A>, outcome: Outcome<T>)

  /** The message of the exception `GetValueOrThrow` throws, before the error text. */
  const NoValueMessage: string := "No value. Only Error "

  /** `GetValueOrThrow`: the value of a success; on a failure it throws, quoting the error. */
  function GetValueOrThrow<T>(r: Result<T>): (o: Outcome<T>)
    ensures o.Returns? <==> r.IsSuccess()
    ensures r.IsSuccess() ==> o.value == r.value
    ensures !r.IsSuccess() ==> o.message == NoValueMessage + r.error
  {
    match r
    case Success(v) => Returns(v)
    case Failure(e) => Throws(NoValueMessage + e)
  }

  /** `Result.Ok(value)`: a success whose value `GetValueOrThrow` gives back. */
  function Ok<T>(value: T): (r: Result<T>)
    ensures r.IsSuccess()
    ensures GetValueOrThrow(r) == Returns(value)
  {
    Success(value)
  }

  /** `Result.Ok()`: a success carrying the unit value. */
  function OkNone(): (r: Result<None>)
    ensures r.IsSuccess()
    ensures GetValueOrThrow(r) == Returns(None)
  {
    Ok(None)
  }

  /** `Result.Fail(e)`: a failure carrying `e`, on which `GetValueOrThrow` throws. */
  function Fail<T>(e: string): (r: Result<T>)
    ensures !r.IsSuccess()
    ensures r.error == e
    ensures GetValueOrThrow(r) == Throws(NoValueMessage + e)
  {
    Failure(e)
  }

  /** `AsResult` and the implicit conversion from `T`: wrap a plain value as a success. */
  function AsResult<T>(value: T): (r: Result<T>)
    ensures r.IsSuccess()
    ensures GetValueOrThrow(r) == Returns(value)
  {
    Ok(value)
  }

  /** The C# `??` operator on strings. */
  function Coalesce(preferred: Nullable<string>, fallback: string): string
  {
    match preferred
    case NonNull(s) => s
    case Null => fallback
  }

  /**
   * `Result.Of(f, error)` for a `Func<T>`: run `f`; a normal return becomes a
   * success, an exception a failure whose error is `error` when that is not
   * null and the exception's message otherwise.
   */
  function Of<T>(f: Outcome<T>, error: Nullable<string>): (r: Result<T>)
    ensures r.IsSuccess() <==> f.Returns?
    ensures f.Returns? ==> r == Ok(f.value)
    ensures f.Throws? && error.NonNull? ==> r == Fail(error.value)
    ensures f.Throws? && error.Null? ==> r == Fail(f.message)
  {
    match f
    case Returns(v) => Ok(v)
    case Throws(m) => Fail(Coalesce(error, m))
  }

  /** `Result.Of(f, error)` for an `Action`: as for a `Func<T>`, with `Ok()` on a normal return. */
  function OfAction(f: Outcome<None>, error: Nullable<string>): (r: Result<None>)
    ensures r.IsSuccess() <==> f.Returns?
    ensures f.Returns? ==> r == OkNone()
    ensures f.Throws? && error.NonNull? ==> r == Fail(error.value)
    ensures f.Throws? && error.Null? ==> r == Fail(f.message)
  {
    if f.Returns? then OkNone() else Fail(Coalesce(error, f.message))
  }

  /**
   * `Then` with a continuation that returns a `Result`: a success is handed
   * to the continuation, a failure is passed on with its error and the
   * continuation is not consulted.
   */
  function Then<I, O>(input: Result<I>, continuation: I -> Result<O>): (r: Result<O>)
    ensures input.IsSuccess() ==> r == continuation(input.value)
    ensures !input.IsSuccess() ==> r == Fail(input.error)
    ensures r.IsSuccess() ==> input.IsSuccess()
  {
    if input.IsSuccess() then continuation(input.value) else Fail(input.error)
  }

  /**
   * `Then` with a continuation that returns a plain value: the continuation
   * runs under `Of` with no custom error, so its exception becomes a failure
   * carrying the exception's message and its value becomes a success.
   */
  function ThenTry<I, O>(input: Result<I>, continuation: I -> Outcome<O>): (r: Result<O>)
    ensures !input.IsSuccess() ==> r == Fail(input.error)
    ensures input.IsSuccess() && continuation(input.value).Returns? ==>
              r == Ok(continuation(input.value).value)
    ensures input.IsSuccess() && continuation(input.value).Throws? ==>
              r == Fail(continuation(input.value).message)
  {
    Then(input, (inp: I) => Of(continuation(inp), Null))
  }

  /**
   * `OnFail`: invoke the handler with the error exactly when the input is a
   * failure, then return the input unchanged; an exception of the handler
   * escapes.
   */
  function OnFail<T>(input: Result<T>, handleError: string -> Outcome<None>): (run: Invoked<string, Result<T>>)
    ensures |run.calls| == (if input.IsSuccess() then 0 else 1)
    ensures forall i :: 0 <= i < |run.calls| ==> run.calls[i] == input.error
    ensures run.outcome.Returns? ==> run.outcome.value == input
    ensures run.outcome.Throws? <==> !input.IsSuccess() && handleError(input.error).Throws?
    ensures run.outcome.Throws? ==> run.outcome.message == handleError(input.error).message
  {
    if input.IsSuccess() then
      Invoked([], Returns(input))
    else
      match handleError(input.error)
      case Returns(_) => Invoked([input.error], Returns(input))
      case Throws(m) => Invoked([input.error], Throws(m))
  }

  /**
   * `OnSuccess`: invoke the handler exactly when the input is a success,
   * then return the input unchanged; an exception of the handler escapes.
   */
  function OnSuccess<T>(input: Result<T>, handle: Outcome<None>): (run: Invoked<None, Result<T>>)
    ensures |run.calls| == (if input.IsSuccess() then 1 else 0)
    ensures run.outcome.Returns? ==> run.outcome.value == input
    ensures run.outcome.Throws? <==> input.IsSuccess() && handle.Throws?
    ensures run.outcome.Throws? ==> run.outcome.message == handle.message
  {
    if !input.IsSuccess() then
      Invoked([], Returns(input))
    else
      match handle
      case Returns(_) => Invoked([None], Returns(input))
      case Throws(m) => Invoked([None], Throws(m))
  }

  /** `ReplaceError`: leaves a success alone; rewrites only the error text of a failure. */
  function ReplaceError<T>(input: Result<T>, replaceError: string -> string): (r: Result<T>)
    ensures r.IsSuccess() <==> input.IsSuccess()
    ensures input.IsSuccess() ==> r == input
    ensures !input.IsSuccess() ==> r.error == replaceError(input.error)
  {
    if input.IsSuccess() then input else Fail(replaceError(input.error))
  }

  /**
   * The C# `+` on strings, where a null operand reads as the empty string.
   */
  function ConcatNullable(left: Nullable<string>, right: string): string
  {
    Coalesce(left, "") + right
  }

  /**
   * `RefineError(m)`: prefixes a failure's error with `m` and ". " (a null
   * `m` adds only ". "); leaves a success alone.
   */
  function RefineError<T>(input: Result<T>, errorMessage: Nullable<string>): (r: Result<T>)
    ensures r.IsSuccess() <==> input.IsSuccess()
    ensures input.IsSuccess() ==> r == input
    ensures !input.IsSuccess() && errorMessage.NonNull? ==> r.error == errorMessage.value + ". " + input.error
    ensures !input.IsSuccess() && errorMessage.Null? ==> r.error == ". " + input.error
  {
    ReplaceError(input, (err: string) => ConcatNullable(errorMessage, ". " + err))
  }

  /**
   * `Validate(p, m)`: a success whose value satisfies `p` is kept, one that
   * does not becomes a failure with `m`; a failure passes through.
   */
  function Validate<T>(input: Result<T>, validator: T -> bool, errorMessage: string): (r: Result<T>)
    ensures input.IsSuccess() && validator(input.value) ==> r == input
    ensures input.IsSuccess() && !validator(input.value) ==> r == Fail(errorMessage)
    ensures !input.IsSuccess() ==> r == input
  {
    Then(input, (i: T) => if validator(i) then Ok(i) else Fail(errorMessage))
  }

  // Laws of `Then` relating several calls.

  /** A failing input never consults the continuation: any two continuations give the same result. */
  lemma ThenIgnoresContinuationOnFailure<I, O>(e: string, f: I -> Result<O>, g: I -> Result<O>)
    ensures Then(Fail<I>(e), f) == Then(Fail<I>(e), g) == Fail(e)
  {
  }

  /** Right identity: continuing with `Ok` changes nothing. */
  lemma ThenRightIdentity<T>(input: Result<T>)
    ensures Then(input, (x: T) => Ok(x)) == input
  {
  }

  /** Associativity: two `Then`s in a row equal one `Then` into a continuation that does both. */
  lemma ThenAssociative<A, B, C>(input: Result<A>, f: A -> Result<B>, g: B -> Result<C>)
    ensures Then(Then(input, f), g) == Then(input, (x: A) => Then(f(x), g))
  {
  }

  /** A `ReplaceError` applied while the value is still a success does not touch a later error. */
  lemma ReplaceErrorBeforeFailureHasNoEffect<I, O>(v: I, replace: string -> string, f: I -> Result<O>)
    ensures Then(ReplaceError(Ok(v), replace), f) == f(v)
  {
  }

  /** `OfAction` is `Of` at the unit type. */
  lemma OfActionIsOfNone(f: Outcome<None>, error: Nullable<string>)
    ensures OfAction(f, error) == Of(f, error)
  {
    match f
    case Returns(u) => assert u == None;
    case Throws(_) =>
  }

  // A pipeline is a chain of `Then`s; the first failure decides its result.

  /** `start.Then(steps[0]).Then(steps[1])...`, a left fold of `Then`. */
  function Chain<T>(start: Result<T>, steps: seq<T -> Result<T>>): Result<T>
    decreases |steps|
  {
    if steps == [] then start else Chain(Then(start, steps[0]), steps[1..])
  }

  /** Running a chain in two parts is running it in one. */
  lemma {:induction false} ChainSplit<T>(start: Result<T>, a: seq<T -> Result<T>>, b: seq<T -> Result<T>>)
    ensures Chain(start, a + b) == Chain(Chain(start, a), b)
    decreases |a|
  {
    if a == [] {
      assert a + b == b;
    } else {
      assert (a + b)[1..] == a[1..] + b;
      ChainSplit(Then(start, a[0]), a[1..], b);
    }
  }

  /** A failure going into a chain comes out of it unchanged: no later step runs. */
  lemma {:induction false} ChainFailureShortCircuits<T>(e: string, steps: seq<T -> Result<T>>)
    ensures Chain(Fail<T>(e), steps) == Fail(e)
    decreases |steps|
  {
    if steps != [] {
      ChainFailureShortCircuits(e, steps[1..]);
    }
  }

  /** Once a prefix of the chain has failed, the rest of the chain cannot replace its error. */
  lemma ChainPrefixFailureIsFinal<T>(start: Result<T>, steps: seq<T -> Result<T>>, k: nat)
    requires k <= |steps|
    requires !Chain(start, steps[..k]).IsSuccess()
    ensures Chain(start, steps) == Chain(start, steps[..k])
  {
    assert steps == steps[..k] + steps[k..];
    ChainSplit(start, steps[..k], steps[k..]);
    ChainFailureShortCircuits(Chain(start, steps[..k]).error, steps[k..]);
  }

  /** The error of the first step that fails is the error of the whole chain. */
  lemma ChainFirstFailureWins<T>(start: Result<T>, steps: seq<T -> Result<T>>, k: nat)
    requires k < |steps|
    requires Chain(start, steps[..k]).IsSuccess()
    requires !steps[k](Chain(start, steps[..k]).value).IsSuccess()
    ensures Chain(start, steps) == steps[k](Chain(start, steps[..k]).value)
  {
    assert steps[..k + 1] == steps[..k] + [steps[k]];
    ChainSplit(start, steps[..k], [steps[k]]);
    ChainPrefixFailureIsFinal(start, steps, k + 1);
  }

  /**
   * A chain that starts from a success and ends in a failure has a first
   * failing step: every step before it succeeded and it produced the failure.
   */
  lemma {:induction false} ChainFailureHasFirstFailingStep<T>(start: Result<T>, steps: seq<T -> Result<T>>)
    requires start.IsSuccess()
    requires !Chain(start, steps).IsSuccess()
    ensures exists k :: 0 <= k < |steps| && Chain(start, steps[..k]).IsSuccess()
                        && Chain(start, steps[..k + 1]) == steps[k](Chain(start, steps[..k]).value)
                        && !Chain(start, steps[..k + 1]).IsSuccess()
    decreases |steps|
  {
    assert steps != [];
    var next := Then(start, steps[0]);
    assert Chain(start, steps[..0]) == start;
    assert Chain(start, steps[..1]) == Chain(next, []) == next by {
      assert steps[..1][1..] == [];
    }
    if !next.IsSuccess() {
      assert Chain(start, steps[..0 + 1]) == steps[0](Chain(start, steps[..0]).value);
    } else {
      ChainFailureHasFirstFailingStep(next, steps[1..]);
      var j :| 0 <= j < |steps[1..]| && Chain(next, steps[1..][..j]).IsSuccess()
               && Chain(next, steps[1..][..j + 1]) == steps[1..][j](Chain(next, steps[1..][..j]).value)
               && !Chain(next, steps[1..][..j + 1]).IsSuccess();
      assert steps[..j + 1][1..] == steps[1..][..j];
      assert steps[..j + 2][1..] == steps[1..][..j + 1];
      assert Chain(start, steps[..j + 1]) == Chain(next, steps[1..][..j]);
      assert Chain(start, steps[..j + 2]) == Chain(next, steps[1..][..j + 1]);
      assert Chain(start, steps[..(j + 1) + 1]) == steps[j + 1](Chain(start, steps[..j + 1]).value);
    }
  }
}
