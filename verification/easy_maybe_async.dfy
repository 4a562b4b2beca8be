/**
 The extension members of EasyMonads/Maybe/MaybeAsyncExtensions.cs, which act on
 a `Task<Maybe>`. A task is modelled as its awaited result. Every member is a
 `MatchAsync(none, some)` with two lambdas, that is EasyMaybe.MatchLazy with
 callbacks that are never null, so argument checks never fire; the user's
 delegates are invoked inside the lambdas without a null check.

 The `MatchAsync` and `IfSomeAsync` extensions await the task and call the
 instance member with the same arguments: EasyMaybe.MatchLazy and EasyMaybe.IfSome.
 */
module EasyMaybeAsync {
  import opened Base
  import opened EasyMaybeType
  import M = EasyMaybe
  import E = EasyEither

  /** `BindAsync(bind)`: despite the name, `bind` returns a plain value, which the
      implicit conversion turns into a Maybe, so this is Map with a lazy null check. */
  function BindAsync<T, U>(m: Maybe<T>, bind: Nullable<T -> Nullable<U>>): (result: Outcome<Maybe<U>>)
    ensures bind.NonNull? ==> result == M.Map(m, bind)
    ensures bind.Null? ==> (result.Thrown? <==> m.Some?)
    ensures result.Thrown? ==> result.error == NullReference
  {
    Join(M.MatchLazy(m, NonNull(() => Ok(None)), NonNull((v: T) => var u :- Invoke(bind, v); Ok(From(u)))))
  }

  /** `ToEitherAsync(left)`: `left` goes through the implicit conversion, i.e. FromLeft. */
  function ToEitherAsync<L, T>(m: Maybe<T>, left: Nullable<L>): (e: E.Either<L, T>)
    ensures e == M.ToEither(m, left)
  {
    M.MatchLazy(m, NonNull(() => E.FromLeft<L, T>(left)), NonNull((v: T) => E.FromRight<L, T>(NonNull(v)))).value
  }

  /** `ToLeftEitherAsync(right)`: `right` goes through the implicit conversion, i.e. FromRight. */
  function ToLeftEitherAsync<T, R>(m: Maybe<T>, right: Nullable<R>): (e: E.Either<T, R>)
    ensures e == M.ToLeftEitherWith(m, right)
  {
    M.MatchLazy(m, NonNull(() => E.FromRight<T, R>(right)), NonNull((v: T) => E.FromLeft<T, R>(NonNull(v)))).value
  }

  /** `Select(map)` on a task: the same lambdas as BindAsync. */
  function Select<T, U>(m: Maybe<T>, mapping: Nullable<T -> Nullable<U>>): (result: Outcome<Maybe<U>>)
    ensures result == M.Select(m, mapping)
    ensures result == BindAsync(m, mapping)
  {
    Join(M.MatchLazy(m, NonNull(() => Ok(None)), NonNull((v: T) => var u :- Invoke(mapping, v); Ok(From(u)))))
  }

  /** `SelectMany(bind, project)` on a task, as written. The inner `Match(() => default, ...)`
      has the projection's result type, so a None from `bind` yields `default(TResult)`,
      which the implicit conversion then turns into a Maybe. `defaultResult` stands for
      that default: Null for a reference or nullable type, the zero value otherwise. */
  function SelectMany<T, I, U>(m: Maybe<T>, bind: Nullable<T -> Maybe<I>>, project: Nullable<(T, I) -> Nullable<U>>,
                               defaultResult: Nullable<U>): (result: Outcome<Maybe<U>>)
    ensures defaultResult.Null? ==> result == M.SelectMany(m, bind, project)
    ensures result == if m.Some? && bind.NonNull? && bind.value(m.value).None? && defaultResult.NonNull?
                      then Ok(Some(defaultResult.value))
                      else M.SelectMany(m, bind, project)
  {
    Join(M.MatchLazy(m, NonNull(() => Ok(None)), NonNull((v: T) =>
      var bound :- Invoke(bind, v);
      var p :- Join(M.MatchLazy(bound, NonNull(() => Ok(defaultResult)), NonNull((y: I) =>
        var r :- Invoke2(project, v, y);
        if r.Null? then Thrown(InvalidOperation) else Ok(r))));
      Ok(From(p)))))
  }

  /** SelectMany on a task as evidently intended: a None from `bind` gives None. */
  function SelectManyIntended<T, I, U>(m: Maybe<T>, bind: Nullable<T -> Maybe<I>>, project: Nullable<(T, I) -> Nullable<U>>): (result: Outcome<Maybe<U>>)
    ensures result == M.SelectMany(m, bind, project)
  {
    Join(M.MatchLazy(m, NonNull(() => Ok(None)), NonNull((v: T) =>
      var bound :- Invoke(bind, v);
      Join(M.MatchLazy(bound, NonNull(() => Ok(None)), NonNull((y: I) =>
        var r :- Invoke2(project, v, y);
        if r.Null? then Thrown(InvalidOperation) else Ok(Some(r.value))))))))
  }

  /** `Where(predicate)` on a task: the kept value goes back through the implicit conversion. */
  function Where<T>(m: Maybe<T>, pred: Nullable<T -> bool>): (result: Outcome<Maybe<T>>)
    ensures result == M.Where(m, pred)
  {
    Join(M.MatchLazy(m, NonNull(() => Ok(None)), NonNull((v: T) =>
      var keep :- Invoke(pred, v); Ok(if keep then From(NonNull(v)) else None))))
  }

  /***** Laws *****/

  /** A Some whose `bind` gives None yields Some(default) from the task query, where the
      synchronous query gives None: for `int`, `from x in Some(1) from y in None select x + y`
      gives Some(0). */
  lemma SelectManyLeaksDefault<T, I, U>(v: T, bind: T -> Maybe<I>, project: Nullable<(T, I) -> Nullable<U>>, d: U)
    requires bind(v).None?
    ensures SelectMany(Some(v), NonNull(bind), project, NonNull(d)) == Ok(Some(d))
    ensures M.SelectMany(Some(v), NonNull(bind), project) == Ok(None)
  {
  }

  /** Whenever `bind` produces a value, the as-written query agrees with the synchronous one. */
  lemma SelectManyAgreesWhenBound<T, I, U>(m: Maybe<T>, bind: T -> Maybe<I>, project: Nullable<(T, I) -> Nullable<U>>,
                                           defaultResult: Nullable<U>)
    requires m.Some? ==> bind(m.value).Some?
    ensures SelectMany(m, NonNull(bind), project, defaultResult) == M.SelectMany(m, NonNull(bind), project)
  {
  }

  /** Bind validates `bind` eagerly; BindAsync lets a None through without looking at it. */
  lemma BindAsyncChecksLazily<T, U>(bind: Nullable<T -> Nullable<U>>)
    requires bind.Null?
    ensures M.Map(None, bind) == Thrown(ArgumentNull("map"))
    ensures BindAsync(None, bind) == Ok(None)
  {
  }

  /** `Maybe(5)` bound to `x.ToString()` is `Some("5")`; None stays None. */
  lemma BindAsyncScenario()
    ensures BindAsync(Some(5), NonNull((x: int) => NonNull(if x == 5 then "5" else ""))) == Ok(Some("5"))
    ensures BindAsync(None, NonNull((x: int) => NonNull(if x == 5 then "5" else ""))) == Ok(None)
  {
  }
}
