/**
 The extension members of Monads/Either/EitherAsyncExtensions.cs, which act on a
 `Task<Either>` of the older generation. A task is modelled as its awaited result.

 These members go through the two-callback `MatchAsync` extension or instance
 overloads, which pass no `bottom` callback, so a Bottom yields
 `default(TResult)`: Bottom for an Either result, None for an Option result.
 The `MatchAsync` and `DoRightAsync` extensions themselves await the task and call
 LegacyEither.Match (without `bottom`) and LegacyEither.DoRight.
 */
module LegacyEitherAsync {
  import opened Base
  import LE = LegacyEither
  import LO = LegacyOption

  /** `MapAsync(map)`: `MatchAsync(left: FromLeft, rightAsync: right => map(right))`. The
      lambda is never null, so a null `map` is only invoked, and fails, on a Right. */
  function MapAsync<L, R, B>(e: LE.Either<L, R>, mapping: Nullable<R -> LE.Either<L, B>>): (result: Outcome<LE.Either<L, B>>)
    ensures mapping.NonNull? ==> result == LE.Bind(e, mapping)
    ensures mapping.Null? ==> (result.Thrown? <==> e.Right?)
    ensures result.Thrown? ==> result.error == NullReference
  {
    Join(LE.Match(e,
                  NonNull((l: L) => Ok(LE.FromLeft<L, B>(NonNull(l)))),
                  NonNull((r: R) => Invoke(mapping, r)),
                  Null,
                  Ok(LE.Bottom)))
  }

  /** `BindAsync(bind)`: MapAsync with a lambda that re-wraps the Right payload with
      FromRight and matches it against `right2 => bind(right2)`. */
  function BindAsync<L, R, B>(e: LE.Either<L, R>, bind: Nullable<R -> LE.Either<L, B>>): (result: Outcome<LE.Either<L, B>>)
    ensures result == MapAsync(e, bind)
    ensures bind.NonNull? ==> result == LE.Bind(e, bind)
  {
    Join(LE.Match(e,
                  NonNull((l: L) => Ok(LE.FromLeft<L, B>(NonNull(l)))),
                  NonNull((r: R) =>
                    Join(LE.Match(LE.FromRight<L, R>(NonNull(r)),
                                  NonNull((l: L) => Ok(LE.FromLeft<L, B>(NonNull(l)))),
                                  NonNull((r2: R) => Invoke(bind, r2)),
                                  Null,
                                  Ok(LE.Bottom)))),
                  Null,
                  Ok(LE.Bottom)))
  }

  /** `ToOptionTask()`: `MatchAsync(left => None, right => right)`, the Right payload
      becoming an Option by the implicit conversion and Bottom giving the default, None. */
  function ToOptionTask<L, R>(e: LE.Either<L, R>): (o: LO.Option<R>)
    ensures o.Some? <==> e.Right?
    ensures o.Some? ==> o.value == e.right
  {
    LE.Match(e, NonNull((l: L) => LO.None), NonNull((r: R) => LO.From(NonNull(r))), Null, LO.None).value
  }

  /** `Select(map)` on a task: Match with `FromLeft` and `right => map(right)`. */
  function Select<L, R, B>(e: LE.Either<L, R>, mapping: Nullable<R -> Nullable<B>>): (result: Outcome<LE.Either<L, B>>)
    ensures result == LE.Select(e, mapping)
  {
    Join(LE.Match(e,
                  NonNull((l: L) => Ok(LE.FromLeft<L, B>(NonNull(l)))),
                  NonNull((r: R) => var b :- Invoke(mapping, r); Ok(LE.FromRight<L, B>(b))),
                  Null,
                  Ok(LE.Bottom)))
  }

  /** `SelectMany(bind, project)` on a task: BindAsync of `bind(right)` bound, through
      BindAsync again, to the projection converted to an Either. */
  function SelectMany<L, R, I, B>(e: LE.Either<L, R>, bind: Nullable<R -> LE.Either<L, I>>, project: Nullable<(R, I) -> Nullable<B>>): (result: Outcome<LE.Either<L, B>>)
    ensures result == LE.SelectMany(e, bind, project)
  {
    match e
    case Bottom => Ok(LE.Bottom)
    case Left(l) => Ok(LE.FromLeft(NonNull(l)))
    case Right(r) =>
      var bound :- Invoke(bind, r);
      match bound
      case Bottom => Ok(LE.Bottom)
      case Left(l) => Ok(LE.FromLeft(NonNull(l)))
      case Right(y) =>
        var projection :- Invoke2(project, r, y);
        Ok(LE.FromRight(projection))
  }

  /** `Where(predicate)` on a task, as written: Left and Bottom become Bottom, but both
      arms of the Right branch (`right` and `FromRight(right)`) rebuild the same Right. */
  function Where<L, R>(e: LE.Either<L, R>, pred: Nullable<R -> bool>): (result: Outcome<LE.Either<L, R>>)
    ensures result.Thrown? <==> e.Right? && pred.Null?
    ensures result.Thrown? ==> result.error == NullReference
    ensures result.Ok? ==> (result.value.Right? <==> e.Right?)
  {
    Join(LE.Match(e,
                  NonNull((l: L) => Ok(LE.Bottom)),
                  NonNull((r: R) => var keep :- Invoke(pred, r); Ok(if keep then LE.FromRight<L, R>(NonNull(r)) else LE.FromRight<L, R>(NonNull(r)))),
                  Null,
                  Ok(LE.Bottom)))
  }

  /** Where on a task, as evidently intended: a failing Right becomes Bottom. */
  function WhereIntended<L, R>(e: LE.Either<L, R>, pred: Nullable<R -> bool>): (result: Outcome<LE.Either<L, R>>)
    ensures result == LE.Where(e, pred)
  {
    Join(LE.Match(e,
                  NonNull((l: L) => Ok(LE.Bottom)),
                  NonNull((r: R) => var keep :- Invoke(pred, r); Ok(if keep then LE.FromRight<L, R>(NonNull(r)) else LE.Bottom)),
                  Null,
                  Ok(LE.Bottom)))
  }

  /***** Laws *****/

  /** The task Where never filters: a Right survives whatever the predicate says, so it
      disagrees with the synchronous Where on every Right the predicate rejects. */
  lemma WhereIgnoresPredicate<L, R>(r: R, pred: R -> bool)
    ensures Where(LE.Either<L, R>.Right(r), NonNull(pred)) == Ok(LE.Right(r))
    ensures !pred(r) ==> Where(LE.Either<L, R>.Right(r), NonNull(pred)) != LE.Where(LE.Either<L, R>.Right(r), NonNull(pred))
  {
  }

  /** Apart from that, the task Where agrees with the synchronous one. */
  lemma WhereAgreesOffRight<L, R>(e: LE.Either<L, R>, pred: Nullable<R -> bool>)
    requires !e.Right?
    ensures Where(e, pred) == LE.Where(e, pred) == Ok(LE.Bottom)
  {
  }

  /** Bind throws ArgumentNullException for a null function in every state; BindAsync
      lets a Left through and throws NullReferenceException only for a Right. */
  lemma BindAsyncChecksLazily<L, R, B>(l: L, r: R, bind: Nullable<R -> LE.Either<L, B>>)
    requires bind.Null?
    ensures LE.Bind(LE.Left(l), bind) == Thrown(ArgumentNull("bind"))
    ensures BindAsync(LE.Left(l), bind) == Ok(LE.Left(l))
    ensures BindAsync(LE.Right(r), bind) == Thrown(NullReference)
  {
  }

  /** Converting an Option to an Either and back gives the Option, whatever the fallback. */
  lemma ToOptionOfToEither<L, T>(o: LO.Option<T>, left: Nullable<L>)
    ensures ToOptionTask(LO.ToEither(o, left)) == o
  {
  }
}
