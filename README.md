# Temporal Java SDK: data-converter registry, workflow context state, retryer facade

This project models three small pieces of the Temporal Java SDK in Dafny and proves
properties about them.

- **DataConverter** (`data_converter.dfy`) models `DefaultDataConverter`. It keeps an
  ordered list of payload converters and an index from encoding type to converter,
  rebuilt from the list. Overrides replace a registered converter in place or are
  appended. `toPayload` asks the converters in order and the first payload wins;
  `toPayloads` encodes each value. `fromPayload` dispatches on the payload's
  `"encoding"` metadata; `fromPayloads` falls back to a default value past the end of
  the arguments. A converter is a class with a name (its encoding type) and two
  black-box conversions. `IndexOf` compares converters by reference. `List.indexOf`
  compares with `equals`, which is the same thing for converters that do not override
  `equals`. Values, requested types and payload bodies are opaque.
- **WorkflowContexts** (`workflow_context.dfy`) models `WorkflowContext`: the cancel
  flag, the search-attribute builder (absent until created), merging with overwrite,
  the "none while empty" getter, the continued run id and the propagated contexts.
- **Retryer** (`retryer.dfy`) models the `GrpcRetryer` facade. `GrpcRetryerOptions`
  is a datatype whose destructors `options` and `deadline` are its getters, so they
  return exactly the constructor's arguments. `Validate` is the finiteness check. The
  overloads are functions that delegate to a retry loop passed in as a parameter.
- `wrappers.dfy` holds Option/Result/Outcome. `payloads.dfy` holds the payload value
  and the metadata key `"encoding"`.

Exceptions are values: `Result`/`Outcome` failures carry the exception the Java code
raises or lets through. A Java `null` argument is `None`.

The Javadoc of the `GrpcRetryerOptions` constructor (`GrpcRetryer.java:86-89`) speaks
of options "without an expiration" or maxAttempts when a deadline is supplied. The
code of `validate` (`GrpcRetryer.java:108-112`) checks a maximum interval, a positive
attempt count or a deadline. The model follows the code.

## Model

| member | source | states |
|---|---|---|
| `DataConverter.ConverterMap` | temporal-sdk/src/main/java/io/temporal/common/converter/DefaultDataConverter.java:193-198 | the rebuilt index has an entry for every encoding type in the list, and each entry is a listed converter of that type |
| `DataConverter.ConverterMapIsLastOfType` | temporal-sdk/src/main/java/io/temporal/common/converter/DefaultDataConverter.java:193-198 | the index holds exactly the listed encoding types and sends each to the last listed converter of that type |
| `DataConverter.ConverterMapSelectsLast` | temporal-sdk/src/main/java/io/temporal/common/converter/DefaultDataConverter.java:195-197 | a converter with no later converter of its type is the one the index selects |
| `DataConverter.IndexOf` | temporal-sdk/src/main/java/io/temporal/common/converter/DefaultDataConverter.java:108 | `indexOf` gives the first position holding the object, or -1 exactly when it is absent |
| `DataConverter.Wrap` | temporal-sdk/src/main/java/io/temporal/common/converter/DefaultDataConverter.java:141-144 | after the catch clauses the exception is always a DataConverterException; one that already was passes through unchanged, and any other becomes the cause of a new one |
| `DataConverter.DefaultDataConverter.constructor` | temporal-sdk/src/main/java/io/temporal/common/converter/DefaultDataConverter.java:93-96 | the list equals the argument in order and the index is the one rebuilt from it |
| `DataConverter.DefaultDataConverter.UpdateConverterMap` | temporal-sdk/src/main/java/io/temporal/common/converter/DefaultDataConverter.java:193-198 | clearing and refilling leaves the index equal to the one rebuilt from the list |
| `DataConverter.DefaultDataConverter.WithPayloadConverterOverrides` | temporal-sdk/src/main/java/io/temporal/common/converter/DefaultDataConverter.java:103-118 | returns the same object, the new list is the corrected override loop applied to the old list and index, and the index is refreshed from it at the end; without repeated or already listed converters the new index is the old one overridden by the index of the overrides |
| `DataConverter.ApplyOverridesAsWritten` | temporal-sdk/src/main/java/io/temporal/common/converter/DefaultDataConverter.java:105-113 | the loop as written either completes, with the list grown by the number of overrides of types the stale index lacks, or stops with IndexOutOfBoundsException for index -1 |
| `DataConverter.ApplyOverridesShape` | temporal-sdk/src/main/java/io/temporal/common/converter/DefaultDataConverter.java:99-113 | for every list, index and override list: every original position keeps its encoding type, a converter of a type no override has stays where it is, and the overrides of unregistered types are appended in order, so the list grows by exactly their number |
| `DataConverter.ApplyOverridesShapeFrom` | temporal-sdk/src/main/java/io/temporal/common/converter/DefaultDataConverter.java:105-113 | the generalisation behind it: no replacement reaches positions holding unregistered types |
| `DataConverter.OverridesRebuildIndex` | temporal-sdk/src/main/java/io/temporal/common/converter/DefaultDataConverter.java:99-117 | when no converter object is listed twice and no override is already listed, the refreshed index sends every overridden type to the last override of that type and leaves every other type as it was; a converter shadowed by a later one of its type stays at its position |
| `DataConverter.OverridesKeepShadowedGeneral` | temporal-sdk/src/main/java/io/temporal/common/converter/DefaultDataConverter.java:105-113 | under the same invariant as the rebuilt index, no replacement reaches a converter that is not the last of its type |
| `DataConverter.RepeatedObjectAsWrittenVsCorrected` | temporal-sdk/src/main/java/io/temporal/common/converter/DefaultDataConverter.java:105-115 | with one converter object listed twice and two overrides of its type, the code completes with both copies replaced and the later override selected, while the corrected loop keeps the second copy and leaves it selected |
| `DataConverter.OverridesRebuildIndexGeneral` | temporal-sdk/src/main/java/io/temporal/common/converter/DefaultDataConverter.java:105-117 | the inductive generalisation: while every indexed converter and every override sits only at the last position of its type, the refreshed index is the old index overridden by the index of the overrides |
| `DataConverter.ReplaceLastOfType` | temporal-sdk/src/main/java/io/temporal/common/converter/DefaultDataConverter.java:109 | replacing the last converter of a type puts the replacement in the rebuilt index under that type and changes no other entry |
| `DataConverter.ConverterMapConcat` | temporal-sdk/src/main/java/io/temporal/common/converter/DefaultDataConverter.java:193-198 | the index rebuilt from two lists in a row is the first one's index overridden by the second one's |
| `DataConverter.OverrideKnownTypeReplacesInPlace` | temporal-sdk/src/main/java/io/temporal/common/converter/DefaultDataConverter.java:106-109 | an override of a registered type replaces the indexed converter at its position, as written and corrected; every other position and the length are unchanged |
| `DataConverter.OverrideUnknownTypeAppends` | temporal-sdk/src/main/java/io/temporal/common/converter/DefaultDataConverter.java:110-112 | an override of an unregistered type is appended after the unchanged list, as written and corrected |
| `DataConverter.TwoUnknownOverridesBothAppended` | temporal-sdk/src/main/java/io/temporal/common/converter/DefaultDataConverter.java:105-117 | two overrides of the same unregistered type in one call are both appended, and the refreshed index selects the later one |
| `DataConverter.AsWrittenRepeatedKnownOverrideFails` | temporal-sdk/src/main/java/io/temporal/common/converter/DefaultDataConverter.java:105-112 | as written, two fresh overrides of the same registered type make the second `set` fail with index -1, after the first replacement |
| `DataConverter.CorrectedRepeatedKnownOverrideLaterWins` | temporal-sdk/src/main/java/io/temporal/common/converter/DefaultDataConverter.java:105-117 | corrected, the second override replaces the first at the same position and the refreshed index selects it |
| `DataConverter.AsWrittenAgreesWithCorrected` | temporal-sdk/src/main/java/io/temporal/common/converter/DefaultDataConverter.java:103-118 | unless two overrides share a registered type, the code as written completes and gives the same list as the corrected loop |
| `DataConverter.AsWrittenAgreesGeneral` | temporal-sdk/src/main/java/io/temporal/common/converter/DefaultDataConverter.java:105-113 | the loop invariant behind that agreement: both loops agree while the two indexes agree on every type still to be looked up |
| `DataConverter.ReplaceKeepsIndex` | temporal-sdk/src/main/java/io/temporal/common/converter/DefaultDataConverter.java:106-109 | an override of a registered type always finds a position, and after the replacement the index still points into the list |
| `DataConverter.AppendKeepsIndex` | temporal-sdk/src/main/java/io/temporal/common/converter/DefaultDataConverter.java:110-112 | appending keeps every indexed converter in the list |
| `DataConverter.DefaultDataConverter.ToPayload` | temporal-sdk/src/main/java/io/temporal/common/converter/DefaultDataConverter.java:120-129 | the loop's result is the first-hit search over the list in order |
| `DataConverter.FirstPayloadIsFirstHit` | temporal-sdk/src/main/java/io/temporal/common/converter/DefaultDataConverter.java:122-126 | when every earlier converter declines and converter i produces a payload, that payload is the result |
| `DataConverter.FirstPayloadHasWinner` | temporal-sdk/src/main/java/io/temporal/common/converter/DefaultDataConverter.java:122-126 | a successful result comes from a converter whose predecessors all declined the value |
| `DataConverter.FirstPayloadNoHit` | temporal-sdk/src/main/java/io/temporal/common/converter/DefaultDataConverter.java:128 | when every converter declines, the result is IllegalArgumentException |
| `DataConverter.DefaultDataConverter.FromPayload` | temporal-sdk/src/main/java/io/temporal/common/converter/DefaultDataConverter.java:132-146 | succeeds exactly when the encoding metadata is present, registered and its converter decodes, with that converter's value; missing metadata and an unknown encoding become DataConverterExceptions caused by the IllegalArgumentException, a converter's own DataConverterException reaches the caller unchanged, and any other exception it raises becomes the cause of one |
| `DataConverter.FromPayloadUsesLastOfType` | temporal-sdk/src/main/java/io/temporal/common/converter/DefaultDataConverter.java:134-140 | decoding uses the last listed converter of the payload's encoding; an encoding no listed converter has is an unknown-encoding DataConverterException |
| `DataConverter.DefaultDataConverter.ToPayloads` | temporal-sdk/src/main/java/io/temporal/common/converter/DefaultDataConverter.java:156-176 | the loop's result is the reference encoding of all values, with wrapping of failures |
| `DataConverter.EncodeAllOnePerValue` | temporal-sdk/src/main/java/io/temporal/common/converter/DefaultDataConverter.java:161-170 | a successful encoding has one payload per value, in order, each the toPayload result of its value |
| `DataConverter.EncodeAllSucceedsIffEach` | temporal-sdk/src/main/java/io/temporal/common/converter/DefaultDataConverter.java:162-169 | encoding all values succeeds exactly when each value can be encoded |
| `DataConverter.PayloadsOfShape` | temporal-sdk/src/main/java/io/temporal/common/converter/DefaultDataConverter.java:156-175 | null or no values give an empty result; otherwise one payload per value in order, or a DataConverterException |
| `DataConverter.DefaultDataConverter.FromPayloads` | temporal-sdk/src/main/java/io/temporal/common/converter/DefaultDataConverter.java:179-191 | absent content or an index at or past the count gives the default value; a negative index is out of bounds; otherwise the payload at the index is decoded |
| `DataConverter.FromPayloadsExtended` | temporal-sdk/src/main/java/io/temporal/common/converter/DefaultDataConverter.java:186-190 | appending arguments does not change what an existing position decodes to |
| `DataConverter.RoundTrip` | temporal-sdk/src/main/java/io/temporal/common/converter/DefaultDataConverter.java:156-191 | with distinct encoding types and converters that decode what they encode, decoding position i of the encoding of the values gives value i back, and positions past the end give the default |
| `WorkflowContexts.WorkflowContext.constructor` | temporal-sdk/src/main/java/io/temporal/internal/replay/WorkflowContext.java:53-67 | the search-attribute state is the started event's attributes when it carries any and absent otherwise; the cancel flag starts false |
| `WorkflowContexts.WorkflowContext.IsCancelRequested` | temporal-sdk/src/main/java/io/temporal/internal/replay/WorkflowContext.java:78-80 | the getter has no contract of its own; the constructor states that it starts false and `SetCancelRequested` that it returns the flag last set |
| `WorkflowContexts.WorkflowContext.SetCancelRequested` | temporal-sdk/src/main/java/io/temporal/internal/replay/WorkflowContext.java:78-84 | afterwards `IsCancelRequested` returns the flag; only the flag may change |
| `WorkflowContexts.WorkflowContext.GetContinuedExecutionRunId` | temporal-sdk/src/main/java/io/temporal/internal/replay/WorkflowContext.java:94-98 | absent exactly for the empty run id, otherwise that (non-empty) run id |
| `WorkflowContexts.Visible` | temporal-sdk/src/main/java/io/temporal/internal/replay/WorkflowContext.java:149-154 | none exactly when the state is absent or has no indexed fields, otherwise the state |
| `WorkflowContexts.WorkflowContext.GetSearchAttributes` | temporal-sdk/src/main/java/io/temporal/internal/replay/WorkflowContext.java:149-154 | none exactly when the builder is absent or empty, otherwise its contents |
| `WorkflowContexts.Merged` | temporal-sdk/src/main/java/io/temporal/internal/replay/WorkflowContext.java:182-190 | an absent or empty argument leaves the state unchanged; otherwise the keys are the union, incoming values overwrite and other entries are kept |
| `WorkflowContexts.WorkflowContext.MergeSearchAttributes` | temporal-sdk/src/main/java/io/temporal/internal/replay/WorkflowContext.java:182-190 | the new state is the merge of the old state and the argument; after a non-empty merge the getter is not null |
| `WorkflowContexts.MergeMakesVisible` | temporal-sdk/src/main/java/io/temporal/internal/replay/WorkflowContext.java:186-189 | after a non-empty merge the attributes are visible even if the state was absent, and hold every merged entry |
| `WorkflowContexts.MergeIdempotent` | temporal-sdk/src/main/java/io/temporal/internal/replay/WorkflowContext.java:186-189 | merging the same attributes twice equals merging them once |
| `WorkflowContexts.Propagated` | temporal-sdk/src/main/java/io/temporal/internal/replay/WorkflowContext.java:175-177 | every propagator's name is a key of the result |
| `WorkflowContexts.PropagatedKeys` | temporal-sdk/src/main/java/io/temporal/internal/replay/WorkflowContext.java:167-180 | the key set is exactly the set of propagator names |
| `WorkflowContexts.PropagatedLastWins` | temporal-sdk/src/main/java/io/temporal/internal/replay/WorkflowContext.java:175-177 | the context under a name is the one deserialised by the last propagator of that name |
| `WorkflowContexts.WorkflowContext.GetPropagatedContexts` | temporal-sdk/src/main/java/io/temporal/internal/replay/WorkflowContext.java:167-180 | an absent or empty propagator list gives an empty map; otherwise the loop's map is the reference one, keyed by exactly the propagator names |
| `Retryer.GrpcRetryerOptions.Validate` | temporal-serviceclient/src/main/java/io/temporal/internal/retryer/GrpcRetryer.java:106-113 | passes exactly when the base check passes and a maximum interval, a positive attempt count or a deadline is present; a base failure aborts with that failure; otherwise IllegalState "has to be finite" |
| `Retryer.NoDeadlineNeedsOwnBound` | temporal-serviceclient/src/main/java/io/temporal/internal/retryer/GrpcRetryer.java:108-112 | without a deadline, validation fails exactly when there is neither a maximum interval nor a positive attempt count |
| `Retryer.DeadlineSuffices` | temporal-serviceclient/src/main/java/io/temporal/internal/retryer/GrpcRetryer.java:108-112 | with a deadline, any options that pass the base check pass validation |
| `Retryer.NullFunctionMirrorsProcedure` | temporal-serviceclient/src/main/java/io/temporal/internal/retryer/GrpcRetryer.java:51-54 | the wrapped procedure succeeds exactly when the procedure does, with null, and otherwise with the same exception |
| `Retryer.RetryIsRetryWithResult` | temporal-serviceclient/src/main/java/io/temporal/internal/retryer/GrpcRetryer.java:48-56 | the void overload succeeds exactly when the retry loop on the wrapped procedure succeeds, and otherwise raises the loop's exception |
| `Retryer.RetryNoDeadlineDelegates` | temporal-serviceclient/src/main/java/io/temporal/internal/retryer/GrpcRetryer.java:43-46 | `retry` with plain retry options is `retry` with those options and no deadline |
| `Retryer.RetryWithResultNoDeadlineDelegates` | temporal-serviceclient/src/main/java/io/temporal/internal/retryer/GrpcRetryer.java:58-61 | `retryWithResult` with plain retry options hands the blocking loop those options and no deadline |
| `Retryer.NoDeadlineOverloadsNeedOwnBound` | temporal-serviceclient/src/main/java/io/temporal/internal/retryer/GrpcRetryer.java:58-72 | the options the no-deadline overloads hand to the loops have no deadline, so they pass validation exactly when the base check passes and the retry options set a maximum interval or a positive attempt count |
| `Retryer.RetryWithResultDelegates` | temporal-serviceclient/src/main/java/io/temporal/internal/retryer/GrpcRetryer.java:64-67 | `retryWithResult` with retryer options is the blocking loop on that function and those options |
| `Retryer.RetryWithResultAsyncNoDeadlineDelegates` | temporal-serviceclient/src/main/java/io/temporal/internal/retryer/GrpcRetryer.java:69-72 | `retryWithResultAsync` with plain retry options hands the non-blocking loop those options and no deadline |
| `Retryer.RetryWithResultAsyncDelegates` | temporal-serviceclient/src/main/java/io/temporal/internal/retryer/GrpcRetryer.java:74-77 | `retryWithResultAsync` with retryer options returns the non-blocking loop's future for that supplier and those options |

## Findings

| source | as written | input that shows it | evidently intended | confidence | as-written member | corrected member |
|---|---|---|---|---|---|---|
| temporal-sdk/src/main/java/io/temporal/common/converter/DefaultDataConverter.java:105-112 | each override looks up the index as it was when the call began, then `indexOf` of the converter found there | `withPayloadConverterOverrides(x1, x2)` where x1 and x2 are new converters of an encoding type already registered, such as two Jackson converters with different mappers: the second `indexOf` returns -1 and `set(-1, x2)` throws IndexOutOfBoundsException, leaving x1 in the list and the index stale | every override either replaces the converter of its type or is appended, so the later one wins and nothing is thrown | not executed; assumes the converters do not override `equals` | `DataConverter.AsWrittenRepeatedKnownOverrideFails` | `DataConverter.CorrectedRepeatedKnownOverrideLaterWins` |

The as-written lemma is about `DataConverter.ApplyOverridesAsWritten`, the loop as
written. The corrected lemma is about `DataConverter.ApplyOverrides`, which
`DataConverter.DefaultDataConverter.WithPayloadConverterOverrides` implements.
The correction records each replacement in the index as it happens
(`converterMap.put(type, override)` after `converters.set(...)`). Appends are
still not recorded. `DataConverter.AsWrittenAgreesWithCorrected` proves that the
correction changes nothing unless two overrides share a registered type.
There is one such input where the code completes and the correction does worse: a list
that holds one converter object twice. `DataConverter.RepeatedObjectAsWrittenVsCorrected`
shows it with two overrides of that object's type. The code replaces both copies and selects
the later override. The correction replaces the first copy twice and leaves the original
converter selected.
`DataConverter.OverridesRebuildIndex` proves the Javadoc's promise for the corrected loop
and every list of overrides. The finding reads `indexOf` as a comparison by reference,
which it is for converters that do not override `equals`.

## Left out

- The process-wide default converter (`STANDARD_DATA_CONVERTER`, the `AtomicReference` behind `getDefaultInstance`/`setDefaultDataConverter`) and `newDefaultInstance`: global mutable state with concurrency semantics.
- The concrete payload converters (Null, ByteArray, ProtobufJson, Protobuf, Jackson) and their order: library and reflection code. Converters are opaque, with black-box conversions.
- UTF-8 decoding of the encoding metadata: metadata values are kept as the strings they decode to. The key `"encoding"` comes from `EncodingKeys`, which is not part of this model.
- Guava's `Defaults.defaultValue`: passed to `FromPayloads` as a parameter.
- The `Payload.getDefaultInstance()` branch of `toPayloads`: `toPayload` never returns an empty Optional (it throws instead), so the branch is dead and the model has no path for it.
- Java `Error`s thrown by a converter: `fromPayload` catches only `Exception`. The model lets every converter failure be an exception.
- DataConverter.CorrectedRepeatedKnownOverrideLaterWins: assumes that no converter object occurs twice in the list and that the first override is not already in it. With a repeated object, `indexOf` finds the first copy while the index selects the last.
- DataConverter.OverridesRebuildIndex: assumes that no converter object occurs twice in the list and that no override is already in it. With a repeated object, `indexOf` finds the first copy while the index selects the last, so the old converter stays selected. `WithPayloadConverterOverrides` states the new index under the same assumptions.
- Payload converters that override `equals`: `List.indexOf` compares with `equals`, while `IndexOf` compares references. The model covers converters with the default `equals` only.
- DataConverter.RoundTrip: holds under its stated hypotheses (distinct encoding types; each converter tags its payload with its own encoding type and decodes it back). The source promises no round trip of its own.
- DataConverter.DefaultDataConverter.WithPayloadConverterOverrides: implements the corrected loop (see Findings). The failing loop as written is `DataConverter.ApplyOverridesAsWritten`, a function over values. It does not model the partially updated object left behind by the exception. On a list holding one converter object twice, the corrected loop departs from a completing run of the code and leaves the old converter selected (`DataConverter.RepeatedObjectAsWrittenVsCorrected`).
- The window in `updateConverterMap` between `clear` and the last `put` of the `ConcurrentHashMap` index: a concurrent `fromPayload` can see an empty or partial index there. Methods are modelled as atomic steps.
- WorkflowContexts.WorkflowContext.GetPropagatedContexts: every propagator reads the same immutable header. The source hands one mutable `HashMap` copy to the propagators in turn, so a propagator that changes it changes what later ones see. The key set does not depend on this.
- WorkflowContext's plain accessors (workflow type, namespace, timeouts, task queue, header, memo, attempt, cron schedule, parent execution, continue-as-new attributes) and `Preconditions.checkNotNull` of the execution: protobuf accessors and foreign calls with no logic of their own. `ContextPropagator.deserializeContext` is a black-box function field.
- The retry loops (`GrpcSyncRetryer`, `GrpcAsyncRetryer`): not shown. Backoff, deadlines, sleeping and futures are abstract parameters of the facade functions.
- `RpcRetryOptions.validate(false)`: an abstract check passed to `Validate`. Only the two `RpcRetryOptions` fields the facade reads are modelled, and `io.grpc.Deadline` is an opaque type.
