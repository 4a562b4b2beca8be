/**
 The optional type of the older generation, `Monads.Option<TValue>`
 (Monads/Option/Option.cs), with its synchronous combinators and its
 conversions to the legacy Either.

 An Option is None or Some; building from null gives None, so a Some never
 holds null. The struct's zero value and `Option.None` are None. Unlike the
 current generation's IfSome, the legacy IfSome and IfNone return Unit.
 */
module LegacyOption {
  import opened Base
  import LE = LegacyEither
  import MaybeType = EasyMaybeType
  import M = EasyMaybe

  datatype Option<T> = None | Some(value: T)

  /** The callbacks IfSome and IfNone can invoke. */
  datatype Call<T> = SomeCalled(v: T) | NoneCalled

  /***** Construction and inspection *****/

  /** The private constructor, `From`, `FromAsync` and the implicit conversion:
      Some exactly for a non-null value. */
  function From<T>(value: Nullable<T>): (o: Option<T>)
    ensures o.Some? <==> value.NonNull?
    ensures o.Some? ==> value == NonNull(o.value)
  {
    match value
    case Null => None
    case NonNull(v) => Some(v)
  }

  function SomeOrDefault<T>(o: Option<T>, defaultValue: Nullable<T>): (v: Nullable<T>)
    ensures o.Some? ==> v == NonNull(o.value)
    ensures o.None? ==> v == defaultValue
  {
    if o.None? then defaultValue else NonNull(o.value)
  }

  /** `IfSome` (and the instance `IfSomeAsync`): runs `some` on the payload, returns Unit. */
  function IfSome<T>(o: Option<T>, some: Action): (result: Outcome<Run<Unit, Call<T>>>)
    ensures some.Null? ==> result == Thrown(ArgumentNull("some"))
    ensures some.NonNull? ==> result.Ok?
    ensures result.Ok? ==> result.value.calls == (if o.Some? then [SomeCalled(o.value)] else [])
  {
    var _ :- Validate(some, "some");
    Ok(Run(Default, if o.Some? then [SomeCalled(o.value)] else []))
  }

  /** `IfNone`: runs `none` when there is no payload, returns Unit. */
  function IfNone<T>(o: Option<T>, none: Action): (result: Outcome<Run<Unit, Call<T>>>)
    ensures none.Null? ==> result == Thrown(ArgumentNull("none"))
    ensures none.NonNull? ==> result.Ok?
    ensures result.Ok? ==> result.value.calls == (if o.None? then [NoneCalled] else [])
  {
    var _ :- Validate(none, "none");
    Ok(Run(Default, if o.None? then [NoneCalled] else []))
  }

  /** `Match(none, some)` (and the instance `MatchAsync` overloads): `none` is checked
      first, then `some`. */
  function Match<T, R>(o: Option<T>, none: Nullable<() -> R>, some: Nullable<T -> R>): (result: Outcome<R>)
    ensures none.Null? ==> result == Thrown(ArgumentNull("none"))
    ensures none.NonNull? && some.Null? ==> result == Thrown(ArgumentNull("some"))
    ensures none.NonNull? && some.NonNull? ==> result.Ok?
    ensures result.Ok? ==> result.value == if o.Some? then some.value(o.value) else none.value()
  {
    var _ :- Validate(none, "none");
    var _ :- Validate(some, "some");
    Ok(if o.Some? then some.value(o.value) else none.value())
  }

  /***** Functor and monad operations *****/

  /** `Map` (and `MapAsync`): the result goes through the implicit conversion, so null gives None. */
  function Map<T, U>(o: Option<T>, mapping: Nullable<T -> Nullable<U>>): (result: Outcome<Option<U>>)
    ensures mapping.Null? ==> result == Thrown(ArgumentNull("map"))
    ensures mapping.NonNull? ==> result.Ok?
    ensures result.Ok? ==> (result.value.Some? <==> o.Some? && mapping.value(o.value).NonNull?)
    ensures result.Ok? && result.value.Some? ==> NonNull(result.value.value) == mapping.value(o.value)
  {
    var _ :- Validate(mapping, "map");
    Ok(if o.Some? then From(mapping.value(o.value)) else None)
  }

  /** `Bind` (and `BindAsync`): the Option returned by `bind` is the result. */
  function Bind<T, U>(o: Option<T>, bind: Nullable<T -> Option<U>>): (result: Outcome<Option<U>>)
    ensures bind.Null? ==> result == Thrown(ArgumentNull("bind"))
    ensures bind.NonNull? ==> result.Ok?
    ensures result.Ok? && o.Some? ==> result.value == bind.value(o.value)
    ensures result.Ok? && o.None? ==> result.value == None
  {
    var _ :- Validate(bind, "bind");
    Ok(if o.Some? then bind.value(o.value) else None)
  }

  /***** Conversion to Either *****/

  /** `ToEither(left)`: Right for Some, otherwise `FromLeft(left)`. */
  function ToEither<L, T>(o: Option<T>, left: Nullable<L>): (e: LE.Either<L, T>)
    ensures e.Right? <==> o.Some?
    ensures o.Some? ==> e.right == o.value
    ensures o.None? ==> e == LE.FromLeft(left)
  {
    if o.Some? then LE.FromRight(NonNull(o.value)) else LE.FromLeft(left)
  }

  /** `ToLeftEither()`: Left for Some, otherwise Right(Unit.Default). */
  function ToLeftEither<T>(o: Option<T>): (e: LE.Either<T, Unit>)
    ensures e == ToLeftEitherWith(o, NonNull(Default))
  {
    if o.Some? then LE.FromLeft(NonNull(o.value)) else LE.FromRight(NonNull(Default))
  }

  /** `ToLeftEither(right)`: Left for Some, otherwise `FromRight(right)`. */
  function ToLeftEitherWith<T, R>(o: Option<T>, right: Nullable<R>): (e: LE.Either<T, R>)
    ensures e.Left? <==> o.Some?
    ensures o.Some? ==> e.left == o.value
    ensures o.None? ==> e == LE.FromRight(right)
  {
    if o.Some? then LE.FromLeft(NonNull(o.value)) else LE.FromRight(right)
  }

  /***** Query bindings *****/

  /** `Select`: Map without the argument check; a null delegate throws only for Some. */
  function Select<T, U>(o: Option<T>, mapping: Nullable<T -> Nullable<U>>): (result: Outcome<Option<U>>)
    ensures mapping.NonNull? ==> result == Map(o, mapping)
    ensures mapping.Null? ==> (result.Thrown? <==> o.Some?)
    ensures result.Thrown? ==> result.error == NullReference
    ensures o.None? ==> result == Ok(None)
  {
    if o.Some? then
      var u :- Invoke(mapping, o.value);
      Ok(From(u))
    else Ok(None)
  }

  /** `SelectMany`: None when the source or the bound value is None; a null projection
      result raises InvalidOperationException. */
  function SelectMany<T, I, U>(o: Option<T>, bind: Nullable<T -> Option<I>>, project: Nullable<(T, I) -> Nullable<U>>): (result: Outcome<Option<U>>)
    ensures o.None? ==> result == Ok(None)
    ensures result == Thrown(InvalidOperation) <==>
              o.Some? && bind.NonNull? && project.NonNull? && bind.value(o.value).Some?
              && project.value(o.value, bind.value(o.value).value).Null?
    ensures result.Ok? && result.value.Some? ==>
              o.Some? && bind.NonNull? && project.NonNull? && bind.value(o.value).Some?
              && project.value(o.value, bind.value(o.value).value) == NonNull(result.value.value)
    ensures o.Some? && bind.Null? ==> result == Thrown(NullReference)
    ensures o.Some? && bind.NonNull? && bind.value(o.value).None? ==> result == Ok(None)
    ensures o.Some? && bind.NonNull? && bind.value(o.value).Some? && project.Null? ==> result == Thrown(NullReference)
    ensures o.Some? && bind.NonNull? && project.NonNull? && bind.value(o.value).Some?
              && project.value(o.value, bind.value(o.value).value).NonNull? ==>
              result == Ok(Some(project.value(o.value, bind.value(o.value).value).value))
  {
    if o.None? then Ok(None)
    else
      var bound :- Invoke(bind, o.value);
      if bound.None? then Ok(None)
      else
        var p :- Invoke2(project, o.value, bound.value);
        if p.Null? then Thrown(InvalidOperation) else Ok(Some(p.value))
  }

  /** `Where`: `IsSome && predicate(value) ? this : None`; the predicate is invoked only for Some. */
  function Where<T>(o: Option<T>, pred: Nullable<T -> bool>): (result: Outcome<Option<T>>)
    ensures result.Thrown? <==> o.Some? && pred.Null?
    ensures result.Thrown? ==> result.error == NullReference
    ensures result.Ok? ==> (result.value == o <==> o.None? || pred.value(o.value))
    ensures result.Ok? ==> result.value == o || result.value == None
  {
    if o.None? then Ok(None)
    else
      var keep :- Invoke(pred, o.value);
      Ok(if keep then o else None)
  }

  /***** Correspondence with the current generation *****/

  /** Reads a legacy Option as a current Maybe. */
  function Modern<T>(o: Option<T>): (m: MaybeType.Maybe<T>)
    ensures m.Some? <==> o.Some?
    ensures m.Some? ==> m.value == o.value
  {
    if o.Some? then MaybeType.Some(o.value) else MaybeType.None
  }

  /** A legacy `bind` delegate seen as a current one. */
  function MapBind<T, I>(bind: Nullable<T -> Option<I>>): (mapped: Nullable<T -> MaybeType.Maybe<I>>)
  {
    match bind
    case Null => Null
    case NonNull(b) => NonNull((x: T) => Modern(b(x)))
  }


  /***** Laws *****/

  /** From and Modern build the same value as the current generation's constructor. */
  lemma FromAgreesWithCurrent<T>(value: Nullable<T>)
    ensures Modern(From(value)) == MaybeType.From(value)
  {
  }

  /** Map, Bind, Where and SelectMany behave as in the current generation. */
  lemma AgreesWithCurrent<T, U, I>(o: Option<T>, f: T -> Nullable<U>, g: T -> Option<U>, p: Nullable<T -> bool>,
                                   bind: Nullable<T -> Option<I>>, project: Nullable<(T, I) -> Nullable<U>>)
    ensures Modern(Map(o, NonNull(f)).value) == M.Map(Modern(o), NonNull(f)).value
    ensures Modern(Bind(o, NonNull(g)).value) == M.Bind(Modern(o), NonNull((x: T) => Modern(g(x)))).value
    ensures Where(o, p).Ok? <==> M.Where(Modern(o), p).Ok?
    ensures Where(o, p).Ok? ==> Modern(Where(o, p).value) == M.Where(Modern(o), p).value
    ensures SelectMany(o, bind, project).Ok? <==> M.SelectMany(Modern(o), MapBind(bind), project).Ok?
    ensures SelectMany(o, bind, project).Ok? ==>
              Modern(SelectMany(o, bind, project).value) == M.SelectMany(Modern(o), MapBind(bind), project).value
  {
  }

  /** Building and reading back: SomeOrDefault returns the value, or the fallback for null. */
  lemma SomeOrDefaultOfFrom<T>(value: Nullable<T>, d: Nullable<T>)
    ensures SomeOrDefault(From(value), d) == if value.Null? then d else value
  {
  }

  /** IfSome and IfNone together invoke exactly one action, chosen as Match would. */
  lemma EffectsCoverEachStateOnce<T>(o: Option<T>)
    ensures var calls := IfSome(o, NonNull(Default)).value.calls + IfNone(o, NonNull(Default)).value.calls;
            Ok(calls) == Match(o, NonNull(() => [NoneCalled]), NonNull((v: T) => [SomeCalled(v)]))
  {
    var some := IfSome(o, NonNull(Default)).value.calls;
    var none := IfNone(o, NonNull(Default)).value.calls;
    if o.Some? {
      assert some == [SomeCalled(o.value)] && none == [];
      assert some + none == [SomeCalled(o.value)];
    } else {
      assert some == [] && none == [NoneCalled];
      assert some + none == [NoneCalled];
    }
  }

  /** Matching with the constructors rebuilds the value. */
  lemma MatchRebuilds<T>(o: Option<T>)
    ensures Match(o, NonNull(() => None), NonNull((v: T) => Some(v))) == Ok(o)
  {
  }

  /** Map by the identity leaves every value unchanged. */
  lemma MapIdentity<T>(o: Option<T>)
    ensures Map(o, NonNull((v: T) => NonNull(v))) == Ok(o)
  {
  }

  /** Mapping twice is mapping once by the null-propagating composition. */
  lemma MapComposition<T, U, V>(o: Option<T>, f: T -> Nullable<U>, g: U -> Nullable<V>)
    ensures Map(Map(o, NonNull(f)).value, NonNull(g)) == Map(o, NonNull(Then(f, g)))
  {
  }

  /** Binding a Some applies the function; binding the constructor changes nothing. */
  lemma BindIdentities<T, U>(v: T, f: T -> Option<U>, o: Option<T>)
    ensures Bind(Some(v), NonNull(f)) == Ok(f(v))
    ensures Bind(o, NonNull((x: T) => Some(x))) == Ok(o)
  {
  }

  /** Bind is associative. */
  lemma BindAssociative<T, U, V>(o: Option<T>, f: T -> Option<U>, g: U -> Option<V>)
    ensures Bind(Bind(o, NonNull(f)).value, NonNull(g))
         == Bind(o, NonNull((x: T) => Bind(f(x), NonNull(g)).value))
  {
  }

  /** Filtering twice is filtering once by the conjunction, so Where is idempotent. */
  lemma WhereConjunction<T>(o: Option<T>, p: T -> bool, q: T -> bool)
    ensures Where(Where(o, NonNull(p)).value, NonNull(q)) == Where(o, NonNull((v: T) => p(v) && q(v)))
    ensures Where(Where(o, NonNull(p)).value, NonNull(p)) == Where(o, NonNull(p))
  {
  }

  /** ToLeftEither is ToEither with the arms exchanged. */
  lemma ToLeftEitherMirrorsToEither<T, R>(o: Option<T>, right: Nullable<R>)
    ensures ToLeftEitherWith(o, right) == LE.Swap(ToEither(o, right))
  {
  }
}
