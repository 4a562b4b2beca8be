/**
 The combinators of the current generation's optional type `Maybe<TValue>`
 (EasyMonads/Maybe/Maybe.cs). The type itself and its constructor are in
 EasyMaybeType; conversions to Either use EasyEither's null-collapsing builders.
 */
module EasyMaybe {
  import opened Base
  import opened EasyMaybeType
  import EasyEither

  /** The callbacks IfSome and IfNone can invoke. */
  datatype Call<T> = SomeCalled(v: T) | NoneCalled

  /***** Inspection and effects *****/

  /** `IfSome` (and `IfSomeAsync`): runs `some` on the payload, returns the value itself. */
  function IfSome<T>(m: Maybe<T>, some: Action): (result: Outcome<Run<Maybe<T>, Call<T>>>)
    ensures some.Null? ==> result == Thrown(ArgumentNull("some"))
    ensures some.NonNull? ==> result.Ok? && result.value.result == m
    ensures result.Ok? ==> result.value.calls == (if m.Some? then [SomeCalled(m.value)] else [])
  {
    if some.Null? then Thrown(ArgumentNull("some"))
    else Ok(Run(m, if m.Some? then [SomeCalled(m.value)] else []))
  }

  /** `IfNone`: runs `none` when there is no payload, returns the value itself. */
  function IfNone<T>(m: Maybe<T>, none: Action): (result: Outcome<Run<Maybe<T>, Call<T>>>)
    ensures none.Null? ==> result == Thrown(ArgumentNull("none"))
    ensures none.NonNull? ==> result.Ok? && result.value.result == m
    ensures result.Ok? ==> result.value.calls == (if m.None? then [NoneCalled] else [])
  {
    if none.Null? then Thrown(ArgumentNull("none"))
    else Ok(Run(m, if m.None? then [NoneCalled] else []))
  }

  function SomeOrDefault<T>(m: Maybe<T>, defaultValue: Nullable<T>): (v: Nullable<T>)
    ensures m.Some? ==> v == NonNull(m.value)
    ensures m.None? ==> v == defaultValue
  {
    if m.None? then defaultValue else NonNull(m.value)
  }

  /** `Match(none, some)` with a value for None: only `some` is checked. */
  function Match<T, R>(m: Maybe<T>, none: R, some: Nullable<T -> R>): (result: Outcome<R>)
    ensures some.Null? ==> result == Thrown(ArgumentNull("some"))
    ensures some.NonNull? ==> result == Ok(if m.Some? then some.value(m.value) else none)
  {
    var _ :- Validate(some, "some");
    Ok(if m.Some? then some.value(m.value) else none)
  }

  /** `Match(none, some)` with a callback for None (and the `MatchAsync` overloads):
      `none` is checked first, then `some`. */
  function MatchLazy<T, R>(m: Maybe<T>, none: Nullable<() -> R>, some: Nullable<T -> R>): (result: Outcome<R>)
    ensures none.Null? ==> result == Thrown(ArgumentNull("none"))
    ensures none.NonNull? && some.Null? ==> result == Thrown(ArgumentNull("some"))
    ensures none.NonNull? && some.NonNull? ==> result == Match(m, none.value(), some)
  {
    var _ :- Validate(none, "none");
    var _ :- Validate(some, "some");
    Ok(if m.Some? then some.value(m.value) else none.value())
  }

  /***** Functor and monad operations *****/

  /** `Map` (and `MapAsync`): the result goes through the constructor, so null gives None. */
  function Map<T, U>(m: Maybe<T>, mapping: Nullable<T -> Nullable<U>>): (result: Outcome<Maybe<U>>)
    ensures mapping.Null? ==> result == Thrown(ArgumentNull("map"))
    ensures mapping.NonNull? ==> result.Ok?
    ensures result.Ok? ==> (result.value.Some? <==> m.Some? && mapping.value(m.value).NonNull?)
    ensures result.Ok? && result.value.Some? ==> NonNull(result.value.value) == mapping.value(m.value)
  {
    var _ :- Validate(mapping, "map");
    Ok(if m.Some? then From(mapping.value(m.value)) else None)
  }

  /** `Bind` (and `BindAsync`): the Maybe returned by `bind` is the result. */
  function Bind<T, U>(m: Maybe<T>, bind: Nullable<T -> Maybe<U>>): (result: Outcome<Maybe<U>>)
    ensures bind.Null? ==> result == Thrown(ArgumentNull("bind"))
    ensures bind.NonNull? ==> result == Ok(if m.Some? then bind.value(m.value) else None)
  {
    var _ :- Validate(bind, "bind");
    Ok(if m.Some? then bind.value(m.value) else None)
  }

  /***** Conversion to Either *****/

  /** `ToEither(left)`: Right for Some, otherwise `FromLeft(left)`. */
  function ToEither<L, T>(m: Maybe<T>, left: Nullable<L>): (e: EasyEither.Either<L, T>)
    ensures e.Right? <==> m.Some?
    ensures m.Some? ==> e.right == m.value
    ensures m.None? ==> e == EasyEither.FromLeft(left)
  {
    if m.Some? then EasyEither.FromRight(NonNull(m.value)) else EasyEither.FromLeft(left)
  }

  /** `ToLeftEither()`: Left for Some, otherwise Right(Unit.Default). */
  function ToLeftEither<T>(m: Maybe<T>): (e: EasyEither.Either<T, Unit>)
    ensures e == ToLeftEitherWith(m, NonNull(Default))
  {
    if m.Some? then EasyEither.FromLeft(NonNull(m.value)) else EasyEither.FromRight(NonNull(Default))
  }

  /** `ToLeftEither(right)`: Left for Some, otherwise `FromRight(right)`. */
  function ToLeftEitherWith<T, R>(m: Maybe<T>, right: Nullable<R>): (e: EasyEither.Either<T, R>)
    ensures e.Left? <==> m.Some?
    ensures m.Some? ==> e.left == m.value
    ensures m.None? ==> e == EasyEither.FromRight(right)
  {
    if m.Some? then EasyEither.FromLeft(NonNull(m.value)) else EasyEither.FromRight(right)
  }

  /***** Query bindings *****/

  /** `Select`: Map without the argument check; a null delegate throws only for Some. */
  function Select<T, U>(m: Maybe<T>, mapping: Nullable<T -> Nullable<U>>): (result: Outcome<Maybe<U>>)
    ensures mapping.NonNull? ==> result == Map(m, mapping)
    ensures mapping.Null? ==> (result.Thrown? <==> m.Some?)
    ensures result.Thrown? ==> result.error == NullReference
    ensures m.None? ==> result == Ok(None)
  {
    if m.Some? then
      var u :- Invoke(mapping, m.value);
      Ok(From(u))
    else Ok(None)
  }

  /** `SelectMany`: None when the source or the bound value is None; a null projection
      result raises InvalidOperationException. */
  function SelectMany<T, I, U>(m: Maybe<T>, bind: Nullable<T -> Maybe<I>>, project: Nullable<(T, I) -> Nullable<U>>): (result: Outcome<Maybe<U>>)
    ensures m.None? ==> result == Ok(None)
    ensures result == Thrown(InvalidOperation) <==>
              m.Some? && bind.NonNull? && project.NonNull? && bind.value(m.value).Some?
              && project.value(m.value, bind.value(m.value).value).Null?
    ensures result.Ok? && result.value.Some? ==>
              m.Some? && bind.NonNull? && project.NonNull? && bind.value(m.value).Some?
              && project.value(m.value, bind.value(m.value).value) == NonNull(result.value.value)
    ensures m.Some? && bind.Null? ==> result == Thrown(NullReference)
    ensures m.Some? && bind.NonNull? && bind.value(m.value).None? ==> result == Ok(None)
    ensures m.Some? && bind.NonNull? && bind.value(m.value).Some? && project.Null? ==> result == Thrown(NullReference)
    ensures m.Some? && bind.NonNull? && project.NonNull? && bind.value(m.value).Some?
              && project.value(m.value, bind.value(m.value).value).NonNull? ==>
              result == Ok(Some(project.value(m.value, bind.value(m.value).value).value))
  {
    if m.None? then Ok(None)
    else
      var bound :- Invoke(bind, m.value);
      if bound.None? then Ok(None)
      else
        var p :- Invoke2(project, m.value, bound.value);
        if p.Null? then Thrown(InvalidOperation) else Ok(Some(p.value))
  }

  /** `Where`: keeps a Some whose payload passes; the predicate is invoked only for Some. */
  function Where<T>(m: Maybe<T>, pred: Nullable<T -> bool>): (result: Outcome<Maybe<T>>)
    ensures result.Thrown? <==> m.Some? && pred.Null?
    ensures result.Thrown? ==> result.error == NullReference
    ensures result.Ok? ==> (result.value == m <==> m.None? || pred.value(m.value))
    ensures result.Ok? ==> result.value == m || result.value == None
  {
    if m.None? then Ok(None)
    else
      var keep :- Invoke(pred, m.value);
      Ok(if keep then m else None)
  }

  /***** Laws *****/

  /** Building and reading back: SomeOrDefault returns the value, or the fallback for null. */
  lemma SomeOrDefaultOfFrom<T>(value: Nullable<T>, d: Nullable<T>)
    ensures SomeOrDefault(From(value), d) == if value.Null? then d else value
  {
  }

  /** Mapping a present value and reading it back gives the mapped value, and the
      fallback when the mapping gives null (`Maybe(5).Map(x => x * 2).SomeOrDefault(0)` is 10). */
  lemma MapThenSomeOrDefault<T, U>(v: T, f: T -> Nullable<U>, d: Nullable<U>)
    ensures SomeOrDefault(Map(From(NonNull(v)), NonNull(f)).value, d) == if f(v).Null? then d else f(v)
  {
  }

  /** IfSome and IfNone together invoke exactly one action, chosen as Match would. */
  lemma EffectsCoverEachStateOnce<T>(m: Maybe<T>)
    ensures var calls := IfSome(m, NonNull(Default)).value.calls + IfNone(m, NonNull(Default)).value.calls;
            Ok(calls) == Match(m, [NoneCalled], NonNull((v: T) => [SomeCalled(v)]))
  {
    var some := IfSome(m, NonNull(Default)).value.calls;
    var none := IfNone(m, NonNull(Default)).value.calls;
    if m.Some? {
      assert some == [SomeCalled(m.value)] && none == [];
      assert some + none == [SomeCalled(m.value)];
    } else {
      assert some == [] && none == [NoneCalled];
      assert some + none == [NoneCalled];
    }
  }

  /** Matching with the constructors rebuilds the value. */
  lemma MatchRebuilds<T>(m: Maybe<T>)
    ensures Match(m, None, NonNull((v: T) => Some(v))) == Ok(m)
  {
  }

  /** Map by the identity leaves every value unchanged. */
  lemma MapIdentity<T>(m: Maybe<T>)
    ensures Map(m, NonNull((v: T) => NonNull(v))) == Ok(m)
  {
  }

  /** Mapping twice is mapping once by the null-propagating composition. */
  lemma MapComposition<T, U, V>(m: Maybe<T>, f: T -> Nullable<U>, g: U -> Nullable<V>)
    ensures Map(Map(m, NonNull(f)).value, NonNull(g)) == Map(m, NonNull(Then(f, g)))
  {
  }

  /** Map is Bind followed by the null-collapsing constructor. */
  lemma MapIsBind<T, U>(m: Maybe<T>, f: T -> Nullable<U>)
    ensures Map(m, NonNull(f)) == Bind(m, NonNull((v: T) => From(f(v))))
  {
  }

  /** Binding a Some applies the function; binding the constructor changes nothing. */
  lemma BindIdentities<T, U>(v: T, f: T -> Maybe<U>, m: Maybe<T>)
    ensures Bind(Some(v), NonNull(f)) == Ok(f(v))
    ensures Bind(m, NonNull((x: T) => Some(x))) == Ok(m)
  {
  }

  /** Bind is associative. */
  lemma BindAssociative<T, U, V>(m: Maybe<T>, f: T -> Maybe<U>, g: U -> Maybe<V>)
    ensures Bind(Bind(m, NonNull(f)).value, NonNull(g))
         == Bind(m, NonNull((x: T) => Bind(f(x), NonNull(g)).value))
  {
  }

  /** Filtering twice is filtering once by the conjunction, so Where is idempotent. */
  lemma WhereConjunction<T>(m: Maybe<T>, p: T -> bool, q: T -> bool)
    ensures Where(Where(m, NonNull(p)).value, NonNull(q)) == Where(m, NonNull((v: T) => p(v) && q(v)))
    ensures Where(Where(m, NonNull(p)).value, NonNull(p)) == Where(m, NonNull(p))
  {
  }

  /** With a projection that never returns null, SelectMany is a Bind of a Map. */
  lemma SelectManyIsBindOfMap<T, I, U>(m: Maybe<T>, bind: T -> Maybe<I>, project: (T, I) -> U)
    ensures SelectMany(m, NonNull(bind), NonNull((x: T, y: I) => NonNull(project(x, y))))
         == Bind(m, NonNull((x: T) => Map(bind(x), NonNull((y: I) => NonNull(project(x, y)))).value))
  {
  }

  /** Converting to Either and back gives the original value, whatever the fallback. */
  lemma ToEitherToMaybe<L, T>(value: Nullable<T>, left: Nullable<L>)
    ensures EasyEither.ToMaybe(ToEither(From(value), left)) == From(value)
  {
  }

  /** ToLeftEither is ToEither with the arms exchanged. */
  lemma ToLeftEitherMirrorsToEither<T, R>(m: Maybe<T>, right: Nullable<R>)
    ensures ToLeftEitherWith(m, right) == EasyEither.Swap(ToEither(m, right))
  {
  }
}
