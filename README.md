# TagsCloud: the Result monad and the combined words preprocessor

This project models two pure pieces of the TagsCloud word-cloud generator in Dafny and proves their laws.

- **`Result<T>`** (`result.dfy`, module `ResultMonad`). This is the error monad that the whole pipeline threads its errors through. A result is a success carrying a value or a failure carrying an error text. The combinators are `Ok`, `Fail`, `AsResult`, `Of`, `Then`, `OnFail`, `OnSuccess`, `ReplaceError`, `RefineError` and `Validate`, plus `GetValueOrThrow`. The C# type is a struct that holds an `Error` string and a `Value`, and it counts as a success exactly when `Error` is null. The model makes those two states the constructors `Success(value)` and `Failure(error)`.
- **`CombinedPreprocessor`** (`combined_preprocessor.dfy`, module `WordsPreprocessor`). This words preprocessor holds a read-only list of preprocessors. `Process` feeds the words through them in list order, as a left fold. Each `IWordsPreprocessor` is modelled as a total function from a word sequence to a word sequence.

A C# callback may throw. The model treats it as what one invocation does: an `Outcome<T>`, which is either `Returns(value)` or `Throws(message)`.

- A `Func<T>` passed to `Of` becomes one `Outcome<T>`.
- A `Func<TIn, TOut>` becomes a function `TIn -> Outcome<TOut>`.
- An `Action` becomes an `Outcome<None>`, where `None` is a unit type. Its one value stands for the null of type `None` that `Result.Ok()` carries.

The handlers of `OnFail` and `OnSuccess` run only for their side effect. The model records the arguments each handler was called with (`Invoked.calls`) next to what the combinator returned. If a handler throws, its exception escapes the combinator.

Two string arguments can be null and behave differently when they are, so each is modelled as a `Nullable<string>`: the optional `error` argument of `Of` (the `??` operator depends on it) and the message of `RefineError` (C# `+` reads null as the empty string).

## Model

| member | source | states |
|---|---|---|
| `ResultMonad.GetValueOrThrow` | TagsCloud/ResultMonad/Result.cs:18-24 | returns normally exactly when the result is a success (`IsSuccess`), and then gives its value; on a failure it throws with message "No value. Only Error " followed by the error |
| `ResultMonad.Ok` | TagsCloud/ResultMonad/Result.cs:31 | `Ok(v)` is a success and `GetValueOrThrow` gives back `v` |
| `ResultMonad.OkNone` | TagsCloud/ResultMonad/Result.cs:33 | `Ok()` is a success carrying the unit value, which stands for the null of type `None` |
| `ResultMonad.Fail` | TagsCloud/ResultMonad/Result.cs:35 | `Fail(e)` is not a success, carries exactly `e`, and `GetValueOrThrow` on it throws quoting `e` |
| `ResultMonad.AsResult` | TagsCloud/ResultMonad/Result.cs:29 | wrapping a plain value gives a success whose `GetValueOrThrow` returns that value (the implicit conversion at Result.cs:16 is the same) |
| `ResultMonad.Of` | TagsCloud/ResultMonad/Result.cs:37-47 | a success exactly when `f` returns, and then `Ok(f())`; when `f` throws, `Fail(error)` if `error` is not null and otherwise `Fail` of the exception's message |
| `ResultMonad.OfAction` | TagsCloud/ResultMonad/Result.cs:49-60 | for an `Action`: `Ok()` exactly when it returns; when it throws, `Fail(error)` if `error` is not null and otherwise `Fail` of the exception's message |
| `ResultMonad.OfActionIsOfNone` | TagsCloud/ResultMonad/Result.cs:49-60 | the `Action` overload of `Of` agrees with the `Func<T>` overload at the unit type |
| `ResultMonad.Then` | TagsCloud/ResultMonad/Result.cs:66-70 | on a success it is the continuation applied to the value (left identity); on a failure it is a failure with the same error; it succeeds only if its input did |
| `ResultMonad.ThenTry` | TagsCloud/ResultMonad/Result.cs:62-64 | a failure passes through with its error; a continuation that returns `x` gives `Ok(x)`, and one that throws gives `Fail` of the exception's message |
| `ResultMonad.OnFail` | TagsCloud/ResultMonad/Result.cs:72-76 | the handler is called once, with the error, exactly when the input is a failure, and never otherwise; the input is returned unchanged unless the handler throws, and then its exception escapes |
| `ResultMonad.OnSuccess` | TagsCloud/ResultMonad/Result.cs:78-82 | the handler is called once exactly when the input is a success, and never otherwise; the input is returned unchanged unless the handler throws, and then its exception escapes |
| `ResultMonad.ReplaceError` | TagsCloud/ResultMonad/Result.cs:84-86 | keeps success and failure as they are; a success is returned unchanged; a failure's error becomes `replaceError(error)` |
| `ResultMonad.RefineError` | TagsCloud/ResultMonad/Result.cs:88-89 | a success is returned unchanged; a failure's error becomes `m + ". " + error`, and just `". " + error` when `m` is null (C# concatenation reads null as empty) |
| `ResultMonad.Validate` | TagsCloud/ResultMonad/Result.cs:91-94 | a success whose value satisfies the validator is kept; one whose value does not becomes `Fail(errorMessage)`; a failure passes through unchanged |
| `ResultMonad.ThenIgnoresContinuationOnFailure` | TagsCloud/ResultMonad/Result.cs:66-70 | on a failure, `Then` gives the same result whatever the continuation, so the continuation is never consulted |
| `ResultMonad.ThenRightIdentity` | TagsCloud/ResultMonad/Result.cs:66-70 | `Then` with `Ok` as the continuation returns its input |
| `ResultMonad.ThenAssociative` | TagsCloud/ResultMonad/Result.cs:66-70 | `r.Then(f).Then(g)` equals `r.Then(x => f(x).Then(g))` |
| `ResultMonad.ReplaceErrorBeforeFailureHasNoEffect` | TagsCloud/ResultMonad.Tests/ResultTests.cs:141-148 | `Ok(v).ReplaceError(h).Then(f)` is `f(v)`, so a later error is not replaced |
| `ResultMonad.ChainSplit` | TagsCloud/ResultMonad/Result.cs:66-70 | running a chain of `Then`s whose steps are over one value type in two parts gives the same result as running it in one |
| `ResultMonad.ChainFailureShortCircuits` | TagsCloud/ResultMonad/Result.cs:66-70 | a failure that enters a chain of `Then`s (steps over one value type) comes out with the same error, and no step changes it |
| `ResultMonad.ChainPrefixFailureIsFinal` | TagsCloud/ResultMonad/Result.cs:66-70 | once a prefix of a chain of `Then`s (steps over one value type) has failed, the whole chain ends in that same failure |
| `ResultMonad.ChainFirstFailureWins` | TagsCloud/ResultMonad/Result.cs:66-70 | in a chain of `Then`s with steps over one value type, if the steps before step k all succeed and step k fails, the chain's result is step k's failure |
| `ResultMonad.ChainFailureHasFirstFailingStep` | TagsCloud/ResultMonad/Result.cs:66-70 | a chain of `Then`s with steps over one value type that starts from a success and ends in a failure has a first failing step: every step before it succeeded, and that step produced the failure |
| `WordsPreprocessor.CombinedPreprocessor.Process` | TagsCloud/TagsCloudVisualization/WordsPreprocessor/CombinedPreprocessor.cs:19-20 | with no preprocessors the words come back unchanged; with a single preprocessor it is exactly that preprocessor's `Process` |
| `WordsPreprocessor.ConcatIsComposition` | TagsCloud/TagsCloudVisualization/WordsPreprocessor/CombinedPreprocessor.cs:19-20 | combining `a + b` is running the combination of `a` and then that of `b` |
| `WordsPreprocessor.AppendAppliesLast` | TagsCloud/TagsCloudVisualization/WordsPreprocessor/CombinedPreprocessor.cs:19-20 | combining `ps + [p]` applies `p` to the output of the combination of `ps`, so preprocessors run in list order, each on the previous one's output |
| `WordsPreprocessor.NestedCombinationFlattens` | TagsCloud/TagsCloudVisualization/WordsPreprocessor/CombinedPreprocessor.cs:6 | a combined preprocessor is itself an `IWordsPreprocessor`: nested at the head of another, it behaves as if its preprocessors were listed there directly |
| `WordsPreprocessor.IdentityIsNeutral` | TagsCloud/TagsCloudVisualization/WordsPreprocessor/CombinedPreprocessor.cs:19-20 | inserting a preprocessor that returns its input, anywhere in the list, does not change the result |

## Left out

- The cloud layout engine (spiral generator, overlap index, layouter, compaction): its source files are not part of this model.
- `SelectMany`, `ToNone`, `ToValue`, `ValidateNonNull`, `ParseIntResult` and `ParseGuidResult`: their definitions are not part of this model. The tests and the drawer module use them.
- `ResultMonad.Fail`: a null error is not modelled, because Dafny strings cannot be null. In C#, `Fail<T>(null)` builds a *success* that carries `default(T)`, since `IsSuccess` only checks `Error == null`. For the same reason, a `replaceError` function that returns null (in `ReplaceError`) is not modelled. Neither is an exception whose `Message` is null, which the base `Exception` never returns.
- `ResultMonad.ReplaceError`: `replaceError` is a total function. In C# an exception it throws escapes `ReplaceError` (Result.cs:86); the model does not cover that case.
- `ResultMonad.Validate`: `validator` is a total predicate. In C# an exception it throws escapes `Validate` (Result.cs:94); the model does not cover that case. Neither does it cover a null `errorMessage`: a value that fails the validator then gives `Fail(null)`, which in C# is a success carrying `default(T)`.
- `WordsPreprocessor.CombinedPreprocessor.Process`: each preprocessor is a total function. In C# an exception thrown by one preprocessor's `Process` escapes `CombinedPreprocessor.Process` (CombinedPreprocessor.cs:20); the model does not cover that case.
- The `params` constructor of `CombinedPreprocessor` (CombinedPreprocessor.cs:15-17) is the datatype constructor in the model, as is the enumerable constructor. Both arguments become a sequence, so the two constructors coincide and there is nothing separate to state about it.
- The chain lemmas (`ChainSplit` and the others) are about chains whose steps all map one value type to itself. A chain that changes type from step to step (string, then int, then Guid) is covered step by step by `Then`'s contract and `ThenAssociative`, not by a lemma over a whole list of steps.
- `ResultMonad.Then`: its continuation is a total function to `Result`. In C# a `Result`-returning continuation that throws lets the exception escape `Then`; the model does not cover that case.
- The exception types are not modelled, only their messages. `GetValueOrThrow` throws an `InvalidOperationException`, and `Of` catches every `Exception`.
- `ResultMonad.OnFail`, `ResultMonad.OnSuccess`: what the handler does is not modelled beyond returning or throwing. The model records only that the handler was called and with which argument.
- `WordsPreprocessor.CombinedPreprocessor.Process`: LINQ's deferred execution is not modelled. Each preprocessor is a function on complete word sequences. The model also does not cover aliasing: C# stores the enumerable (or `params` array) it is given by reference, so a caller who mutates it later changes what `Process` does.
- The rest of the repository is not modelled: colour generators (randomness), image creation and saving (drawing, files), the dependency-injection module, the command-line program and `TagsCloudVisualizer` (orchestration over collaborators that are not modelled).
