/**
 The extension members of Monads/Option/OptionAsyncExtensions.cs, which act on a
 `Task<Option>` of the older generation. A task is modelled as its awaited result.
 Every member is a `MatchAsync(none, some)` with two lambdas, that is
 LegacyOption.Match with callbacks that are never null; the user's delegates are
 invoked inside the lambdas without a null check.

 The `MatchAsync` and `IfSomeAsync` extensions await the task and call
 LegacyOption.Match and LegacyOption.IfSome.
 */
module LegacyOptionAsync {
  import opened Base
  import LE = LegacyEither
  import LO = LegacyOption

  /** `BindAsync(bindAsync)`: `MatchAsync(() => None, value => bindAsync(value))`. */
  function BindAsync<T, U>(o: LO.Option<T>, bind: Nullable<T -> LO.Option<U>>): (result: Outcome<LO.Option<U>>)
    ensures bind.NonNull? ==> result == LO.Bind(o, bind)
    ensures bind.Null? ==> (result.Thrown? <==> o.Some?)
    ensures result.Thrown? ==> result.error == NullReference
  {
    Join(LO.Match(o, NonNull(() => Ok(LO.None)), NonNull((v: T) => Invoke(bind, v))))
  }

  /** `ToEitherAsync(left)`: `left` goes through the implicit conversion, i.e. FromLeft. */
  function ToEitherAsync<L, T>(o: LO.Option<T>, left: Nullable<L>): (e: LE.Either<L, T>)
    ensures e == LO.ToEither(o, left)
  {
    LO.Match(o, NonNull(() => LE.FromLeft<L, T>(left)), NonNull((v: T) => LE.FromRight<L, T>(NonNull(v)))).value
  }

  /** `Select(map)` on a task: the mapped value goes through the implicit conversion. */
  function Select<T, U>(o: LO.Option<T>, mapping: Nullable<T -> Nullable<U>>): (result: Outcome<LO.Option<U>>)
    ensures result == LO.Select(o, mapping)
  {
    Join(LO.Match(o, NonNull(() => Ok(LO.None)), NonNull((v: T) => var u :- Invoke(mapping, v); Ok(LO.From(u)))))
  }

  /** `SelectMany(bind, project)` on a task, as written. The inner `Match(() => default, ...)`
      has the projection's result type, so a None from `bind` yields `default(TResult)`,
      which the implicit conversion then turns into an Option. `defaultResult` stands
      for that default: Null for a reference or nullable type, the zero value otherwise. */
  function SelectMany<T, I, U>(o: LO.Option<T>, bind: Nullable<T -> LO.Option<I>>, project: Nullable<(T, I) -> Nullable<U>>,
                               defaultResult: Nullable<U>): (result: Outcome<LO.Option<U>>)
    ensures defaultResult.Null? ==> result == LO.SelectMany(o, bind, project)
    ensures result == if o.Some? && bind.NonNull? && bind.value(o.value).None? && defaultResult.NonNull?
                      then Ok(LO.Some(defaultResult.value))
                      else LO.SelectMany(o, bind, project)
  {
    Join(LO.Match(o, NonNull(() => Ok(LO.None)), NonNull((v: T) =>
      var bound :- Invoke(bind, v);
      var p :- Join(LO.Match(bound, NonNull(() => Ok(defaultResult)), NonNull((y: I) =>
        var r :- Invoke2(project, v, y);
        if r.Null? then Thrown(InvalidOperation) else Ok(r))));
      Ok(LO.From(p)))))
  }

  /** SelectMany on a task as evidently intended: a None from `bind` gives None. */
  function SelectManyIntended<T, I, U>(o: LO.Option<T>, bind: Nullable<T -> LO.Option<I>>, project: Nullable<(T, I) -> Nullable<U>>): (result: Outcome<LO.Option<U>>)
    ensures result == LO.SelectMany(o, bind, project)
  {
    Join(LO.Match(o, NonNull(() => Ok(LO.None)), NonNull((v: T) =>
      var bound :- Invoke(bind, v);
      Join(LO.Match(bound, NonNull(() => Ok(LO.None)), NonNull((y: I) =>
        var r :- Invoke2(project, v, y);
        if r.Null? then Thrown(InvalidOperation) else Ok(LO.Some(r.value))))))))
  }

  /** `Where(predicate)` on a task: the kept value goes back through the implicit conversion. */
  function Where<T>(o: LO.Option<T>, pred: Nullable<T -> bool>): (result: Outcome<LO.Option<T>>)
    ensures result == LO.Where(o, pred)
  {
    Join(LO.Match(o, NonNull(() => Ok(LO.None)), NonNull((v: T) =>
      var keep :- Invoke(pred, v); Ok(if keep then LO.From(NonNull(v)) else LO.None))))
  }

  /***** Laws *****/

  /** A Some whose `bind` gives None yields Some(default) from the task query, where the
      synchronous query gives None: for `int`, `from x in Some(1) from y in None select x + y`
      gives Some(0). */
  lemma SelectManyLeaksDefault<T, I, U>(v: T, bind: T -> LO.Option<I>, project: Nullable<(T, I) -> Nullable<U>>, d: U)
    requires bind(v).None?
    ensures SelectMany(LO.Some(v), NonNull(bind), project, NonNull(d)) == Ok(LO.Some(d))
    ensures LO.SelectMany(LO.Some(v), NonNull(bind), project) == Ok(LO.None)
  {
  }

  /** Whenever `bind` produces a value, the as-written query agrees with the synchronous one. */
  lemma SelectManyAgreesWhenBound<T, I, U>(o: LO.Option<T>, bind: T -> LO.Option<I>, project: Nullable<(T, I) -> Nullable<U>>,
                                           defaultResult: Nullable<U>)
    requires o.Some? ==> bind(o.value).Some?
    ensures SelectMany(o, NonNull(bind), project, defaultResult) == LO.SelectMany(o, NonNull(bind), project)
  {
  }

  /** Bind validates `bind` eagerly; BindAsync lets a None through without looking at it. */
  lemma BindAsyncChecksLazily<T, U>(bind: Nullable<T -> LO.Option<U>>)
    requires bind.Null?
    ensures LO.Bind(LO.None, bind) == Thrown(ArgumentNull("bind"))
    ensures BindAsync(LO.None, bind) == Ok(LO.None)
  {
  }
}
