/**
 The extension members of EasyMonads/Either/EitherAsyncExtensions.cs, which act
 on a `Task<Either>`. A task is modelled as its awaited result, so each member
 is a composition of synchronous members applied to that result, and each is
 related here to the synchronous member it is meant to mirror.

 The `MatchAsync` and `DoRightAsync` extensions await the task and call the
 instance member with the same arguments; with a task modelled as its result
 they are EasyEither.Match, EasyEither.MatchRight and EasyEither.DoRight.
 */
module EasyEitherAsync {
  import opened Base
  import opened EasyMaybeType
  import E = EasyEither

  /** `MapAsync(map)`, both overloads: `MatchAsync(left: FromLeft, right: map, neither: Neither)`.
      The user's function is passed straight to Match, so a null one is reported as `right`. */
  function MapAsync<L, R, B>(e: E.Either<L, R>, mapping: Nullable<R -> E.Either<L, B>>): (result: Outcome<E.Either<L, B>>)
    ensures mapping.NonNull? ==> result == E.Bind(e, mapping)
    ensures mapping.Null? ==> result == Thrown(ArgumentNull("right"))
  {
    E.Match(e, NonNull((l: L) => E.FromLeft<L, B>(NonNull(l))), mapping, E.Neither)
  }

  /** `MapLeftAsync(map)`: `MatchAsync(left: map, right: FromRight, neither: Neither)`. */
  function MapLeftAsync<L, R, B>(e: E.Either<L, R>, mapping: Nullable<L -> E.Either<B, R>>): (result: Outcome<E.Either<B, R>>)
    ensures mapping.NonNull? ==> result == E.BindLeft(e, mapping)
    ensures mapping.Null? ==> result == Thrown(ArgumentNull("left"))
  {
    E.Match(e, mapping, NonNull((r: R) => E.FromRight<B, R>(NonNull(r))), E.Neither)
  }

  /** `BindAsync(bind)` with a synchronous `bind`: MapAsync with a lambda that re-wraps
      the Right payload with FromRight and matches it against `bind`. The lambda is never
      null, so `bind` is only checked once a Right is reached. */
  function BindAsync<L, R, B>(e: E.Either<L, R>, bind: Nullable<R -> E.Either<L, B>>): (result: Outcome<E.Either<L, B>>)
    ensures bind.NonNull? ==> result == E.Bind(e, bind)
    ensures bind.Null? ==> (result.Thrown? <==> e.Right?)
    ensures result.Thrown? ==> result.error == ArgumentNull("right")
    ensures e.Left? ==> result == Ok(E.Left(e.left))
    ensures e.Neither? ==> result == Ok(E.Neither)
  {
    Join(E.Match(e,
                 NonNull((l: L) => Ok(E.FromLeft<L, B>(NonNull(l)))),
                 NonNull((r: R) => E.Match(E.FromRight<L, R>(NonNull(r)), NonNull((l: L) => E.FromLeft<L, B>(NonNull(l))), bind, E.Neither)),
                 Ok(E.Neither)))
  }

  /** `BindAsync(bindAsync)` with a task-returning `bindAsync`: as above, but the inner
      match receives `right2 => bindAsync(right2)`, so a null `bindAsync` is invoked and
      raises NullReferenceException instead of failing the argument check. */
  function BindAsyncAwaited<L, R, B>(e: E.Either<L, R>, bind: Nullable<R -> E.Either<L, B>>): (result: Outcome<E.Either<L, B>>)
    ensures bind.NonNull? ==> result == E.Bind(e, bind) == BindAsync(e, bind)
    ensures bind.Null? ==> (result.Thrown? <==> e.Right?)
    ensures result.Thrown? ==> result.error == NullReference
  {
    Join(E.Match(e,
                 NonNull((l: L) => Ok(E.FromLeft<L, B>(NonNull(l)))),
                 NonNull((r: R) => Join(E.Match(E.FromRight<L, R>(NonNull(r)),
                                                NonNull((l: L) => Ok(E.FromLeft<L, B>(NonNull(l)))),
                                                NonNull((r2: R) => Invoke(bind, r2)),
                                                Ok(E.Neither)))),
                 Ok(E.Neither)))
  }

  /** `BindLeftAsync(bind)`: MapLeftAsync with a lambda that re-wraps the Left payload
      with FromLeft and matches it against `bind`. */
  function BindLeftAsync<L, R, B>(e: E.Either<L, R>, bind: Nullable<L -> E.Either<B, R>>): (result: Outcome<E.Either<B, R>>)
    ensures bind.NonNull? ==> result == E.BindLeft(e, bind)
    ensures bind.Null? ==> (result.Thrown? <==> e.Left?)
    ensures result.Thrown? ==> result.error == ArgumentNull("left")
  {
    Join(E.Match(e,
                 NonNull((l: L) => E.Match(E.FromLeft<L, R>(NonNull(l)), bind, NonNull((r: R) => E.FromRight<B, R>(NonNull(r))), E.Neither)),
                 NonNull((r: R) => Ok(E.FromRight<B, R>(NonNull(r)))),
                 Ok(E.Neither)))
  }

  /** `ToMaybeTask()`: `MatchAsync(left => None, right => right, None)`, where the Right
      payload becomes a Maybe by the implicit conversion. */
  function ToMaybeTask<L, R>(e: E.Either<L, R>): (m: Maybe<R>)
    ensures m == E.ToMaybe(e)
  {
    E.Match(e, NonNull((l: L) => None), NonNull((r: R) => From(NonNull(r))), None).value
  }

  /** `Select(map)` on a task: the same Match as the synchronous Select. */
  function Select<L, R, B>(e: E.Either<L, R>, mapping: Nullable<R -> Nullable<B>>): (result: Outcome<E.Either<L, B>>)
    ensures result == E.Select(e, mapping)
    ensures mapping.NonNull? ==> result == E.Map(e, mapping)
  {
    Join(E.Match(e,
                 NonNull((l: L) => Ok(E.FromLeft<L, B>(NonNull(l)))),
                 NonNull((r: R) => var b :- Invoke(mapping, r); Ok(E.FromRight<L, B>(b))),
                 Ok(E.Neither)))
  }

  /** `SelectMany(bind, project)` on a task: a BindAsync whose lambda awaits `bind(right)`
      and binds it, through BindAsync again, to `FromRight(project(right, intermediate))`. */
  function SelectMany<L, R, I, B>(e: E.Either<L, R>, bind: Nullable<R -> E.Either<L, I>>, project: Nullable<(R, I) -> Nullable<B>>): (result: Outcome<E.Either<L, B>>)
    ensures result == E.SelectMany(e, bind, project)
  {
    match e
    case Neither => Ok(E.Neither)
    case Left(l) => Ok(E.FromLeft(NonNull(l)))
    case Right(r) =>
      var bound :- Invoke(bind, r);
      match bound
      case Neither => Ok(E.Neither)
      case Left(l) => Ok(E.FromLeft(NonNull(l)))
      case Right(y) =>
        var projection :- Invoke2(project, r, y);
        Ok(E.FromRight(projection))
  }

  /** `Where(predicate)` on a task, as written: Left and Neither become Neither, but
      both arms of the Right branch (`right` and `FromRight(right)`) rebuild the same Right. */
  function Where<L, R>(e: E.Either<L, R>, pred: Nullable<R -> bool>): (result: Outcome<E.Either<L, R>>)
    ensures result.Thrown? <==> e.Right? && pred.Null?
    ensures result.Thrown? ==> result.error == NullReference
    ensures result.Ok? ==> (result.value.Right? <==> e.Right?)
  {
    Join(E.Match(e,
                 NonNull((l: L) => Ok(E.Neither)),
                 NonNull((r: R) => var keep :- Invoke(pred, r); Ok(if keep then E.FromRight<L, R>(NonNull(r)) else E.FromRight<L, R>(NonNull(r)))),
                 Ok(E.Neither)))
  }

  /** Where on a task, as evidently intended: a failing Right becomes Neither. */
  function WhereIntended<L, R>(e: E.Either<L, R>, pred: Nullable<R -> bool>): (result: Outcome<E.Either<L, R>>)
    ensures result == E.Where(e, pred)
  {
    Join(E.Match(e,
                 NonNull((l: L) => Ok(E.Neither)),
                 NonNull((r: R) => var keep :- Invoke(pred, r); Ok(if keep then E.FromRight<L, R>(NonNull(r)) else E.Neither)),
                 Ok(E.Neither)))
  }

  /***** Laws *****/

  /** The task Where never filters: a Right survives whatever the predicate says, so it
      disagrees with the synchronous Where on every Right the predicate rejects. */
  lemma WhereIgnoresPredicate<L, R>(r: R, pred: R -> bool)
    ensures Where(E.Either<L, R>.Right(r), NonNull(pred)) == Ok(E.Right(r))
    ensures !pred(r) ==> Where(E.Either<L, R>.Right(r), NonNull(pred)) != E.Where(E.Either<L, R>.Right(r), NonNull(pred))
  {
  }

  /** Apart from that, the task Where agrees with the synchronous one. */
  lemma WhereAgreesOffRight<L, R>(e: E.Either<L, R>, pred: Nullable<R -> bool>)
    requires !e.Right?
    ensures Where(e, pred) == E.Where(e, pred) == Ok(E.Neither)
  {
  }

  /** Bind throws ArgumentNullException for a null function in every state; BindAsync
      lets a Left or Neither through without looking at it. */
  lemma BindAsyncChecksLazily<L, R, B>(l: L, bind: Nullable<R -> E.Either<L, B>>)
    requires bind.Null?
    ensures E.Bind(E.Left(l), bind) == Thrown(ArgumentNull("function"))
    ensures BindAsync(E.Left(l), bind) == Ok(E.Left(l))
  {
  }
}
