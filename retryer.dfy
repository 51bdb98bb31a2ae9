/** The facade of the RPC retryer: the options it accepts, the check that a
    retry configuration is finite, and the overloads that delegate to the
    blocking and non-blocking retry loops. */
module Retryer {
  import opened Wrappers

  /** An absolute point in time (io.grpc.Deadline). */
  type Deadline

  /** A duration, in nanoseconds. */
  datatype Duration = Duration(nanos: int)

  /** The exceptions raised while validating options. */
  datatype Failure =
    | IllegalState(message: string)
    | InvalidOptions(detail: string)   // whatever the base options' own check raises

  /** The message of the finiteness check. */
  const NotFiniteMessage: string := "configuration of the retries has to be finite"

  /** The fields of RpcRetryOptions that the facade reads; a maximum-attempts
      count of 0 means no limit. */
  datatype RpcRetryOptions = RpcRetryOptions(
    maximumInterval: Option<Duration>,
    maximumAttempts: int)

  /** The options of one retry call: the retry policy and an optional
      absolute deadline for all attempts. Its destructors are the getters. */
  datatype GrpcRetryerOptions = GrpcRetryerOptions(
    options: RpcRetryOptions,
    deadline: Option<Deadline>)
  {
    /** One of the three bounds is present. */
    predicate IsFinite() {
      options.maximumInterval.Some? || options.maximumAttempts > 0 || deadline.Some?
    }

    /** Runs the base options' own check (`validate(false)`, passed in as
        `baseCheck`) and then the finiteness check. */
    function Validate(baseCheck: RpcRetryOptions -> Outcome<Failure>): (r: Outcome<Failure>)
      ensures r.Pass? <==> baseCheck(options).Pass? && IsFinite()
      ensures baseCheck(options).Fail? ==> r == baseCheck(options)
      ensures baseCheck(options).Pass? && !IsFinite() ==> r == Fail(IllegalState(NotFiniteMessage))
    {
      match baseCheck(options)
      case Fail(e) => Fail(e)
      case Pass =>
        if options.maximumInterval.Some? || options.maximumAttempts > 0 || deadline.Some?
        then Pass
        else Fail(IllegalState(NotFiniteMessage))
    }
  }

  /** Options given without a deadline must bound the retries themselves:
      once the base check passes, validation fails exactly when there is
      neither a maximum interval nor a positive attempt limit. */
  lemma NoDeadlineNeedsOwnBound(o: RpcRetryOptions, baseCheck: RpcRetryOptions -> Outcome<Failure>)
    requires baseCheck(o).Pass?
    ensures GrpcRetryerOptions(o, None).Validate(baseCheck).Fail? <==>
            o.maximumInterval.None? && o.maximumAttempts <= 0
  {
  }

  /** A deadline alone makes any configuration finite. */
  lemma DeadlineSuffices(o: RpcRetryOptions, d: Deadline, baseCheck: RpcRetryOptions -> Outcome<Failure>)
    requires baseCheck(o).Pass?
    ensures GrpcRetryerOptions(o, Some(d)).Validate(baseCheck) == Pass
  {
  }

  /** The value a void procedure wrapped as a function returns. */
  datatype Null = Null

  /** The blocking retry loop (GrpcSyncRetryer), supplied by the caller. */
  type SyncRetryer<!R, !E> = (() -> Result<R, E>, GrpcRetryerOptions) -> Result<R, E>

  /** The non-blocking retry loop (GrpcAsyncRetryer), supplied by the caller;
      F is its future type. */
  type AsyncRetryer<!F> = (() -> F, GrpcRetryerOptions) -> F

  /** Turns a void procedure into a function that returns Null on success
      and raises what the procedure raises. */
  function AsNullFunction<E>(proc: () -> Outcome<E>): (f: () -> Result<Null, E>)
  {
    () => match proc() case Pass => Success(Null) case Fail(e) => Failure(e)
  }

  /** `retryWithResult(func, GrpcRetryerOptions)`. */
  function RetryWithResult<R, E>(sync: SyncRetryer<R, E>, f: () -> Result<R, E>,
                                 options: GrpcRetryerOptions): Result<R, E>
  {
    sync(f, options)
  }

  /** `retryWithResult(func, RpcRetryOptions)`. */
  function RetryWithResultNoDeadline<R, E>(sync: SyncRetryer<R, E>, f: () -> Result<R, E>,
                                           options: RpcRetryOptions): Result<R, E>
  {
    RetryWithResult(sync, f, GrpcRetryerOptions(options, None))
  }

  /** `retry(proc, GrpcRetryerOptions)`: the procedure runs through
      retryWithResult as a function returning Null, and only the outcome is
      kept. */
  function Retry<E>(sync: SyncRetryer<Null, E>, proc: () -> Outcome<E>,
                    options: GrpcRetryerOptions): Outcome<E>
  {
    match RetryWithResult(sync, AsNullFunction(proc), options)
    case Success(_) => Pass
    case Failure(e) => Fail(e)
  }

  /** `retry(proc, RpcRetryOptions)`. */
  function RetryNoDeadline<E>(sync: SyncRetryer<Null, E>, proc: () -> Outcome<E>,
                              options: RpcRetryOptions): Outcome<E>
  {
    Retry(sync, proc, GrpcRetryerOptions(options, None))
  }

  /** `retryWithResultAsync(supplier, GrpcRetryerOptions)`. */
  function RetryWithResultAsync<F>(async: AsyncRetryer<F>, supplier: () -> F,
                                   options: GrpcRetryerOptions): F
  {
    async(supplier, options)
  }

  /** `retryWithResultAsync(supplier, RpcRetryOptions)`. */
  function RetryWithResultAsyncNoDeadline<F>(async: AsyncRetryer<F>, supplier: () -> F,
                                             options: RpcRetryOptions): F
  {
    RetryWithResultAsync(async, supplier, GrpcRetryerOptions(options, None))
  }

  /** `retry(proc, RpcRetryOptions)` runs the void overload with those
      options and no deadline. */
  lemma RetryNoDeadlineDelegates<E>(sync: SyncRetryer<Null, E>, proc: () -> Outcome<E>,
                                    o: RpcRetryOptions)
    ensures RetryNoDeadline(sync, proc, o) == Retry(sync, proc, GrpcRetryerOptions(o, None))
  {
  }

  /** `retryWithResult(func, RpcRetryOptions)` hands the blocking loop those
      options and no deadline. */
  lemma RetryWithResultNoDeadlineDelegates<R, E>(sync: SyncRetryer<R, E>, f: () -> Result<R, E>,
                                                 o: RpcRetryOptions)
    ensures RetryWithResultNoDeadline(sync, f, o) == sync(f, GrpcRetryerOptions(o, None))
  {
  }

  /** `retryWithResult(func, GrpcRetryerOptions)` is the blocking loop on
      that function and those options, with its result or exception. */
  lemma RetryWithResultDelegates<R, E>(sync: SyncRetryer<R, E>, f: () -> Result<R, E>,
                                       options: GrpcRetryerOptions)
    ensures RetryWithResult(sync, f, options) == sync(f, options)
  {
  }

  /** `retryWithResultAsync(supplier, RpcRetryOptions)` hands the
      non-blocking loop those options and no deadline. */
  lemma RetryWithResultAsyncNoDeadlineDelegates<F>(async: AsyncRetryer<F>, supplier: () -> F,
                                                   o: RpcRetryOptions)
    ensures RetryWithResultAsyncNoDeadline(async, supplier, o) == async(supplier, GrpcRetryerOptions(o, None))
  {
  }

  /** `retryWithResultAsync(supplier, GrpcRetryerOptions)` returns the
      non-blocking loop's future for that supplier and those options. */
  lemma RetryWithResultAsyncDelegates<F>(async: AsyncRetryer<F>, supplier: () -> F,
                                         options: GrpcRetryerOptions)
    ensures RetryWithResultAsync(async, supplier, options) == async(supplier, options)
  {
  }

  /** At the point of delegation, the options a no-deadline overload hands
      to a retry loop carry no deadline, so they pass validation exactly when
      the retry options bound the retries themselves. */
  lemma NoDeadlineOverloadsNeedOwnBound<R, E, F>(sync: SyncRetryer<R, E>, async: AsyncRetryer<F>,
                                                 f: () -> Result<R, E>, supplier: () -> F,
                                                 o: RpcRetryOptions,
                                                 baseCheck: RpcRetryOptions -> Outcome<Failure>)
    ensures var handed := GrpcRetryerOptions(o, None);
            && RetryWithResultNoDeadline(sync, f, o) == sync(f, handed)
            && RetryWithResultAsyncNoDeadline(async, supplier, o) == async(supplier, handed)
            && (handed.Validate(baseCheck).Pass? <==>
                  baseCheck(o).Pass? && (o.maximumInterval.Some? || o.maximumAttempts > 0))
            && (baseCheck(o).Fail? ==> handed.Validate(baseCheck) == baseCheck(o))
  {
  }

  /** The void overload succeeds exactly when the retry loop, run on the
      procedure wrapped to return Null, succeeds, and otherwise raises the
      loop's exception. */
  lemma RetryIsRetryWithResult<E>(sync: SyncRetryer<Null, E>, proc: () -> Outcome<E>,
                                  options: GrpcRetryerOptions)
    ensures Retry(sync, proc, options).Pass? <==> sync(AsNullFunction(proc), options).Success?
    ensures Retry(sync, proc, options).Fail? ==>
              Retry(sync, proc, options).error == sync(AsNullFunction(proc), options).error
  {
  }

  /** The wrapped procedure returns Null exactly when the procedure completes,
      and raises the same exception otherwise. */
  lemma NullFunctionMirrorsProcedure<E>(proc: () -> Outcome<E>)
    ensures AsNullFunction(proc)().Success? <==> proc().Pass?
    ensures AsNullFunction(proc)().Success? ==> AsNullFunction(proc)().value == Null
    ensures proc().Fail? ==> AsNullFunction(proc)() == Failure(proc().error)
  {
  }
}
