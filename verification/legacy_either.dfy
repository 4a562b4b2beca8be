/**
 The sum type of the older generation, `Monads.Either<TLeft, TRight>`
 (Monads/Either/Either.cs), with its synchronous combinators.

 A legacy Either is Left, Right or Bottom; Bottom plays the part Neither plays
 in the current generation and is also the struct's zero value, so
 `default(Either)` is Bottom. Building from a null payload gives Bottom.
 Argument checks name the C# parameter (`map`, `bind`, `left`, `right`).
 */
module LegacyEither {
  import opened Base
  import E = EasyEither

  datatype Either<L, R> = Bottom | Left(left: L) | Right(right: R)

  /** The callbacks DoLeft and DoRight can invoke. */
  datatype Call<L, R> = LeftCalled(l: L) | RightCalled(r: R)

  /***** Construction *****/

  /** `FromRight`, `FromRightAsync(task)` and the implicit conversion from TRight. */
  function FromRight<L, R>(value: Nullable<R>): (e: Either<L, R>)
    ensures e.Bottom? <==> value.Null?
    ensures value.NonNull? ==> e == Right(value.value)
  {
    match value
    case Null => Bottom
    case NonNull(r) => Right(r)
  }

  /** `FromLeft` and the implicit conversion from TLeft. */
  function FromLeft<L, R>(value: Nullable<L>): (e: Either<L, R>)
    ensures e.Bottom? <==> value.Null?
    ensures value.NonNull? ==> e == Left(value.value)
  {
    match value
    case Null => Bottom
    case NonNull(l) => Left(l)
  }

  /** `FromRightAsync(task, left)`: an awaited null falls back to `FromLeft(left)`. */
  function FromRightOr<L, R>(value: Nullable<R>, left: Nullable<L>): (e: Either<L, R>)
    ensures value.NonNull? ==> e == Right(value.value)
    ensures value.Null? ==> e == FromLeft(left)
  {
    if value.Null? then FromLeft(left) else FromRight(value)
  }

  /** Exchanges the two arms. Not a member of the library: it states that the
      Left-handed combinators are the mirror images of the Right-handed ones. */
  function Swap<L, R>(e: Either<L, R>): (s: Either<R, L>)
    ensures s.Bottom? <==> e.Bottom?
  {
    match e
    case Bottom => Bottom
    case Left(l) => Right(l)
    case Right(r) => Left(r)
  }

  function RightOrDefault<L, R>(e: Either<L, R>, defaultValue: Nullable<R>): (r: Nullable<R>)
    ensures e.Right? ==> r == NonNull(e.right)
    ensures !e.Right? ==> r == defaultValue
  {
    if e.Right? then NonNull(e.right) else defaultValue
  }

  function LeftOrDefault<L, R>(e: Either<L, R>, defaultValue: Nullable<L>): (l: Nullable<L>)
    ensures e.Left? ==> l == NonNull(e.left)
    ensures !e.Left? ==> l == defaultValue
  {
    if e.Left? then NonNull(e.left) else defaultValue
  }

  /***** Matching *****/

  /** `Match(left, right, bottom = null)` and the instance `MatchAsync` overloads: both
      callbacks are checked (`left` first) before the state is looked at. The optional
      `bottom` callback may be null, and then a Bottom gives `default(TResult)`, which
      `defaultResult` stands for. */
  function Match<L, R, T>(e: Either<L, R>, left: Nullable<L -> T>, right: Nullable<R -> T>,
                          bottom: Nullable<() -> T>, defaultResult: T): (result: Outcome<T>)
    ensures left.Null? ==> result == Thrown(ArgumentNull("left"))
    ensures left.NonNull? && right.Null? ==> result == Thrown(ArgumentNull("right"))
    ensures left.NonNull? && right.NonNull? ==> result.Ok?
    ensures result.Ok? && e.Left? ==> result.value == left.value(e.left)
    ensures result.Ok? && e.Right? ==> result.value == right.value(e.right)
    ensures result.Ok? && e.Bottom? ==> result.value == (if bottom.Null? then defaultResult else bottom.value())
  {
    var _ :- Validate(left, "left");
    var _ :- Validate(right, "right");
    Ok(match e
       case Bottom => if bottom.Null? then defaultResult else bottom.value()
       case Left(l) => left.value(l)
       case Right(r) => right.value(r))
  }

  /***** Functor and monad operations *****/

  /** `Map`: the result of `mapping` goes through the implicit conversion, so a null
      result gives Bottom. `MapAsync` is the same with the parameter named `mapAsync`. */
  function Map<L, R, B>(e: Either<L, R>, mapping: Nullable<R -> Nullable<B>>): (result: Outcome<Either<L, B>>)
    ensures mapping.Null? ==> result == Thrown(ArgumentNull("map"))
    ensures mapping.NonNull? ==> result.Ok?
    ensures result.Ok? && e.Right? ==> result.value == FromRight(mapping.value(e.right))
    ensures result.Ok? && e.Left? ==> result.value == Left(e.left)
    ensures result.Ok? && e.Bottom? ==> result.value == Bottom
  {
    var _ :- Validate(mapping, "map");
    Ok(match e
       case Right(r) => FromRight(mapping.value(r))
       case Left(l) => FromLeft(NonNull(l))
       case Bottom => Bottom)
  }

  /** `MapLeft`: the mirror image of Map; its check also names `map`. */
  function MapLeft<L, R, B>(e: Either<L, R>, mapping: Nullable<L -> Nullable<B>>): (result: Outcome<Either<B, R>>)
    ensures mapping.Null? ==> result == Thrown(ArgumentNull("map"))
    ensures mapping.NonNull? ==> result.Ok?
    ensures result.Ok? && e.Left? ==> result.value == FromLeft(mapping.value(e.left))
    ensures result.Ok? && e.Right? ==> result.value == Right(e.right)
    ensures result.Ok? && e.Bottom? ==> result.value == Bottom
  {
    var _ :- Validate(mapping, "map");
    Ok(match e
       case Left(l) => FromLeft(mapping.value(l))
       case Right(r) => FromRight(NonNull(r))
       case Bottom => Bottom)
  }

  /** `Bind`: the Either returned by `bind` is the result. `BindAsync` is the same with
      the parameter named `bindAsync`. */
  function Bind<L, R, B>(e: Either<L, R>, bind: Nullable<R -> Either<L, B>>): (result: Outcome<Either<L, B>>)
    ensures bind.Null? ==> result == Thrown(ArgumentNull("bind"))
    ensures bind.NonNull? ==> result.Ok?
    ensures result.Ok? && e.Right? ==> result.value == bind.value(e.right)
    ensures result.Ok? && e.Left? ==> result.value == Left(e.left)
    ensures result.Ok? && e.Bottom? ==> result.value == Bottom
  {
    var _ :- Validate(bind, "bind");
    Ok(match e
       case Right(r) => bind.value(r)
       case Left(l) => FromLeft(NonNull(l))
       case Bottom => Bottom)
  }

  /***** Effects *****/

  /** `DoRight` (and the instance `DoRightAsync`): returns Unit. */
  function DoRight<L, R>(e: Either<L, R>, right: Action): (result: Outcome<Run<Unit, Call<L, R>>>)
    ensures right.Null? ==> result == Thrown(ArgumentNull("right"))
    ensures right.NonNull? ==> result.Ok?
    ensures result.Ok? ==> result.value.calls == (if e.Right? then [RightCalled(e.right)] else [])
  {
    var _ :- Validate(right, "right");
    Ok(Run(Default, if e.Right? then [RightCalled(e.right)] else []))
  }

  /** `DoLeft` (and the instance `DoLeftAsync`): returns Unit. */
  function DoLeft<L, R>(e: Either<L, R>, left: Action): (result: Outcome<Run<Unit, Call<L, R>>>)
    ensures left.Null? ==> result == Thrown(ArgumentNull("left"))
    ensures left.NonNull? ==> result.Ok?
    ensures result.Ok? ==> result.value.calls == (if e.Left? then [LeftCalled(e.left)] else [])
  {
    var _ :- Validate(left, "left");
    Ok(Run(Default, if e.Left? then [LeftCalled(e.left)] else []))
  }

  /***** Query bindings *****/

  /** `Select`: a Match whose Right branch invokes `mapping` without a null check and
      whose `bottom` callback rebuilds Bottom. */
  function Select<L, R, B>(e: Either<L, R>, mapping: Nullable<R -> Nullable<B>>): (result: Outcome<Either<L, B>>)
    ensures mapping.NonNull? ==> result == Map(e, mapping)
    ensures mapping.Null? ==> (result.Thrown? <==> e.Right?)
    ensures result.Thrown? ==> result.error == NullReference
    ensures e.Left? ==> result == Ok(Left(e.left))
    ensures e.Bottom? ==> result == Ok(Bottom)
  {
    Join(Match(e,
               NonNull((l: L) => Ok(FromLeft<L, B>(NonNull(l)))),
               NonNull((r: R) => var b :- Invoke(mapping, r); Ok(FromRight<L, B>(b))),
               NonNull(() => Ok(Bottom)),
               Ok(Bottom)))
  }

  /** `SelectMany`: `Bind(x => bind(x).Bind(y => FromRight(project(x, y))))`; the user's
      delegates are invoked inside lambdas, so a null one throws only once reached. */
  function SelectMany<L, R, I, B>(e: Either<L, R>, bind: Nullable<R -> Either<L, I>>, project: Nullable<(R, I) -> Nullable<B>>): (result: Outcome<Either<L, B>>)
    ensures bind.NonNull? && project.NonNull? ==>
              result == Bind(e, NonNull((x: R) => Bind(bind.value(x), NonNull((y: I) => FromRight<L, B>(project.value(x, y)))).value))
    ensures result.Thrown? ==> e.Right? && result.error == NullReference
    ensures e.Left? ==> result == Ok(Left(e.left))
    ensures e.Bottom? ==> result == Ok(Bottom)
    ensures e.Right? && bind.Null? ==> result == Thrown(NullReference)
    ensures e.Right? && bind.NonNull? && bind.value(e.right).Left? ==> result == Ok(Left(bind.value(e.right).left))
    ensures e.Right? && bind.NonNull? && bind.value(e.right).Bottom? ==> result == Ok(Bottom)
    ensures e.Right? && bind.NonNull? && bind.value(e.right).Right? && project.Null? ==> result == Thrown(NullReference)
    ensures e.Right? && bind.NonNull? && bind.value(e.right).Right? && project.NonNull? ==>
              result == Ok(FromRight(project.value(e.right, bind.value(e.right).right)))
  {
    match e
    case Bottom => Ok(Bottom)
    case Left(l) => Ok(Left(l))
    case Right(x) =>
      var bound :- Invoke(bind, x);
      match bound
      case Bottom => Ok(Bottom)
      case Left(l) => Ok(Left(l))
      case Right(y) =>
        var p :- Invoke2(project, x, y);
        Ok(FromRight(p))
  }

  /** `Where`: only a Right whose payload passes survives; everything else is Bottom. */
  function Where<L, R>(e: Either<L, R>, pred: Nullable<R -> bool>): (result: Outcome<Either<L, R>>)
    ensures result.Thrown? <==> e.Right? && pred.Null?
    ensures result.Thrown? ==> result.error == NullReference
    ensures result.Ok? ==> (result.value.Right? <==> e.Right? && pred.value(e.right))
    ensures result.Ok? ==> result.value == e || result.value == Bottom
  {
    if !e.Right? then Ok(Bottom)
    else
      var keep :- Invoke(pred, e.right);
      Ok(if keep then e else Bottom)
  }

  /***** Correspondence with the current generation *****/

  /** Reads a legacy Either as a current one: Bottom is Neither. */
  function Modern<L, R>(e: Either<L, R>): (m: E.Either<L, R>)
    ensures m.Neither? <==> e.Bottom?
    ensures e.Left? ==> m == E.Left(e.left)
    ensures e.Right? ==> m == E.Right(e.right)
  {
    match e
    case Bottom => E.Neither
    case Left(l) => E.Left(l)
    case Right(r) => E.Right(r)
  }

  /***** Laws *****/

  /** The correspondence is one-to-one. */
  lemma ModernIsInjective<L, R>(a: Either<L, R>, b: Either<L, R>)
    ensures Modern(a) == Modern(b) <==> a == b
  {
  }

  /** Map, Bind and Where behave as in the current generation; only the parameter
      a null delegate is reported under differs. */
  lemma AgreesWithCurrent<L, R, B>(e: Either<L, R>, f: R -> Nullable<B>, g: R -> Either<L, B>, p: Nullable<R -> bool>)
    ensures Modern(Map(e, NonNull(f)).value) == E.Map(Modern(e), NonNull(f)).value
    ensures Modern(Bind(e, NonNull(g)).value) == E.Bind(Modern(e), NonNull((r: R) => Modern(g(r)))).value
    ensures Where(e, p).Ok? <==> E.Where(Modern(e), p).Ok?
    ensures Where(e, p).Ok? ==> Modern(Where(e, p).value) == E.Where(Modern(e), p).value
  {
  }

  /** Building with FromRight and reading back with RightOrDefault returns the value,
      or the fallback when the value was null; LeftOrDefault always falls back. */
  lemma RightOrDefaultOfFromRight<L, R>(value: Nullable<R>, d: Nullable<R>, dl: Nullable<L>)
    ensures RightOrDefault(FromRight<L, R>(value), d) == if value.Null? then d else value
    ensures LeftOrDefault(FromRight<L, R>(value), dl) == dl
  {
  }

  /** The mirror image for FromLeft and LeftOrDefault. */
  lemma LeftOrDefaultOfFromLeft<L, R>(value: Nullable<L>, d: Nullable<L>, dr: Nullable<R>)
    ensures LeftOrDefault(FromLeft<L, R>(value), d) == if value.Null? then d else value
    ensures RightOrDefault(FromLeft<L, R>(value), dr) == dr
  {
  }

  /** Matching with the constructors rebuilds the value. */
  lemma MatchRebuilds<L, R>(e: Either<L, R>)
    ensures Match(e, NonNull((l: L) => Left(l)), NonNull((r: R) => Right(r)), Null, Bottom) == Ok(e)
  {
  }

  /** A Bottom matched without a `bottom` callback gives the default, whatever the other callbacks. */
  lemma MatchBottomIsDefault<L, R, T>(left: L -> T, right: R -> T, defaultResult: T)
    ensures Match(Bottom, NonNull(left), NonNull(right), Null, defaultResult) == Ok(defaultResult)
  {
  }

  /** Map by the identity leaves every value unchanged. */
  lemma MapIdentity<L, R>(e: Either<L, R>)
    ensures Map(e, NonNull((r: R) => NonNull(r))) == Ok(e)
  {
  }

  /** Mapping twice is mapping once by the null-propagating composition. */
  lemma MapComposition<L, R, B, C>(e: Either<L, R>, f: R -> Nullable<B>, g: B -> Nullable<C>)
    ensures Map(Map(e, NonNull(f)).value, NonNull(g)) == Map(e, NonNull(Then(f, g)))
  {
  }

  /** MapLeft is Map seen through Swap, including the argument check. */
  lemma MapLeftMirrorsMap<L, R, B>(e: Either<L, R>, mapping: Nullable<L -> Nullable<B>>)
    ensures MapLeft(e, mapping) == (var m :- Map(Swap(e), mapping); Ok(Swap(m)))
  {
  }

  /** Binding a freshly built Right applies the function; binding Right changes nothing. */
  lemma BindIdentities<L, R, B>(r: R, f: R -> Either<L, B>, e: Either<L, R>)
    ensures Bind(FromRight<L, R>(NonNull(r)), NonNull(f)) == Ok(f(r))
    ensures Bind(e, NonNull((x: R) => Right(x))) == Ok(e)
  {
  }

  /** Bind is associative. */
  lemma BindAssociative<L, R, B, C>(e: Either<L, R>, f: R -> Either<L, B>, g: B -> Either<L, C>)
    ensures Bind(Bind(e, NonNull(f)).value, NonNull(g))
         == Bind(e, NonNull((r: R) => Bind(f(r), NonNull(g)).value))
  {
  }

  /** Filtering twice is filtering once by the conjunction; Left and Bottom give Bottom. */
  lemma WhereConjunction<L, R>(e: Either<L, R>, p: R -> bool, q: R -> bool)
    ensures Where(Where(e, NonNull(p)).value, NonNull(q)) == Where(e, NonNull((r: R) => p(r) && q(r)))
    ensures !e.Right? ==> Where(e, NonNull(p)) == Ok(Bottom)
  {
  }

  /** DoLeft and DoRight together invoke at most one callback, the one Match would
      select, and none for Bottom. */
  lemma EffectsCoverEachStateOnce<L, R>(e: Either<L, R>)
    ensures var calls := DoLeft(e, NonNull(Default)).value.calls + DoRight(e, NonNull(Default)).value.calls;
            Ok(calls) == Match(e, NonNull((l: L) => [LeftCalled(l)]), NonNull((r: R) => [RightCalled(r)]), Null, [])
  {
    var left := DoLeft(e, NonNull(Default)).value.calls;
    var right := DoRight(e, NonNull(Default)).value.calls;
    var expected := Match(e, NonNull((l: L) => [LeftCalled(l)]), NonNull((r: R) => [RightCalled(r)]), Null, []).value;
    match e
    case Left(l) =>
      assert left == [LeftCalled(l)] && right == [] && expected == [LeftCalled(l)];
      assert left + right == expected;
    case Right(r) =>
      assert left == [] && right == [RightCalled(r)] && expected == [RightCalled(r)];
      assert left + right == expected;
    case Bottom =>
      assert left == [] && right == [] && expected == [];
      assert left + right == expected;
  }

  /** An awaited null with a fallback left (`FromRightAsync(null, 3)` in the tests) is
      that Left: LeftOrDefault reads the fallback back and RightOrDefault falls back. */
  lemma FromRightOrFallsBack<L, R>(l: L, dl: Nullable<L>, dr: Nullable<R>)
    ensures FromRightOr<L, R>(Null, NonNull(l)) == Left(l)
    ensures LeftOrDefault(FromRightOr<L, R>(Null, NonNull(l)), dl) == NonNull(l)
    ensures RightOrDefault(FromRightOr<L, R>(Null, NonNull(l)), dr) == dr
  {
  }
}
