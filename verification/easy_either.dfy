/**
 The sum type of the current generation, `EasyMonads.Either<TLeft, TRight>`
 (EasyMonads/Either/Either.cs), with its synchronous combinators.

 An Either is Left, Right or Neither. Every way of building one (the
 constructors, `FromLeft`/`FromRight`, their `Nullable` and awaited forms and
 the implicit conversions) collapses a null payload to Neither, so a Left or
 Right never holds null. The struct's zero value and `Either.Neither` are Neither.
 */
module EasyEither {
  import opened Base
  import opened EasyMaybeType

  datatype Either<L, R> = Neither | Left(left: L) | Right(right: R)

  /** The callbacks the effect members can invoke. */
  datatype Call<L, R> =
    | LeftCalled(l: L)     // the `left` action, with the Left payload
    | RightCalled(r: R)    // the `right` action, with the Right payload
    | NeitherCalled        // the `neither` action
    | LeftOrNeitherCalled  // the single `leftOrNeither` action

  /***** Construction *****/

  /** `FromRight`, `FromRightNullable`, `FromRightAsync(task)`, the constructor from a
      TRight and the implicit conversion from TRight. */
  function FromRight<L, R>(value: Nullable<R>): (e: Either<L, R>)
    ensures e.Neither? <==> value.Null?
    ensures value.NonNull? ==> e == Right(value.value)
  {
    match value
    case Null => Neither
    case NonNull(r) => Right(r)
  }

  /** `FromLeft`, `FromLeftNullable`, `FromLeftAsync`, the constructor from a TLeft
      and the implicit conversion from TLeft. */
  function FromLeft<L, R>(value: Nullable<L>): (e: Either<L, R>)
    ensures e.Neither? <==> value.Null?
    ensures value.NonNull? ==> e == Left(value.value)
  {
    match value
    case Null => Neither
    case NonNull(l) => Left(l)
  }

  /** `FromRightAsync(task, left)`: an awaited null falls back to `FromLeft(left)`. */
  function FromRightOr<L, R>(value: Nullable<R>, left: Nullable<L>): (e: Either<L, R>)
    ensures value.NonNull? ==> e == Right(value.value)
    ensures value.Null? ==> e == FromLeft(left)
  {
    if value.Null? then FromLeft(left) else FromRight(value)
  }

  /** Exchanges the two arms. Not a member of the library: it states that the
      Left-handed combinators are the mirror images of the Right-handed ones. */
  function Swap<L, R>(e: Either<L, R>): (s: Either<R, L>)
    ensures s.Neither? <==> e.Neither?
  {
    match e
    case Neither => Neither
    case Left(l) => Right(l)
    case Right(r) => Left(r)
  }

  /***** Inspection *****/

  function RightOrDefault<L, R>(e: Either<L, R>, defaultValue: Nullable<R>): (r: Nullable<R>)
    ensures e.Right? ==> r == NonNull(e.right)
    ensures !e.Right? ==> r == defaultValue
  {
    if e.Right? then NonNull(e.right) else defaultValue
  }

  function LeftOrDefault<L, R>(e: Either<L, R>, defaultValue: Nullable<L>): (l: Nullable<L>)
    ensures e.Left? ==> l == NonNull(e.left)
    ensures !e.Left? ==> l == defaultValue
  {
    if e.Left? then NonNull(e.left) else defaultValue
  }

  /** The three-way `Match` (and the instance `MatchAsync` overloads): both callbacks
      are checked before the state is looked at, `left` first. */
  function Match<L, R, T>(e: Either<L, R>, left: Nullable<L -> T>, right: Nullable<R -> T>, neither: T): (result: Outcome<T>)
    ensures left.Null? ==> result == Thrown(ArgumentNull("left"))
    ensures left.NonNull? && right.Null? ==> result == Thrown(ArgumentNull("right"))
    ensures left.NonNull? && right.NonNull? ==> result.Ok?
    ensures result.Ok? && e.Left? ==> result.value == left.value(e.left)
    ensures result.Ok? && e.Right? ==> result.value == right.value(e.right)
    ensures result.Ok? && e.Neither? ==> result.value == neither
  {
    var _ :- Validate(left, "left");
    var _ :- Validate(right, "right");
    Ok(match e
       case Neither => neither
       case Left(l) => left.value(l)
       case Right(r) => right.value(r))
  }

  /** The two-way `Match(leftOrNeither, right)`: Left and Neither share one value. */
  function MatchRight<L, R, T>(e: Either<L, R>, leftOrNeither: T, right: Nullable<R -> T>): (result: Outcome<T>)
    ensures right.Null? ==> result == Thrown(ArgumentNull("function"))
    ensures right.NonNull? ==> result == Ok(if e.Right? then right.value(e.right) else leftOrNeither)
  {
    var _ :- Validate(right, "function");
    Ok(if e.Right? then right.value(e.right) else leftOrNeither)
  }

  /***** Functor and monad operations *****/

  /** `Map` (and the instance `MapAsync`): the result of `mapping` goes through
      `FromRight`, so a null result gives Neither. */
  function Map<L, R, B>(e: Either<L, R>, mapping: Nullable<R -> Nullable<B>>): (result: Outcome<Either<L, B>>)
    ensures mapping.Null? ==> result == Thrown(ArgumentNull("function"))
    ensures mapping.NonNull? ==> result.Ok?
    ensures result.Ok? && e.Right? ==> result.value == FromRight(mapping.value(e.right))
    ensures result.Ok? && e.Left? ==> result.value == Left(e.left)
    ensures result.Ok? && e.Neither? ==> result.value == Neither
  {
    var _ :- Validate(mapping, "function");
    Ok(match e
       case Right(r) => FromRight(mapping.value(r))
       case Left(l) => FromLeft(NonNull(l))
       case Neither => Neither)
  }

  /** `MapLeft`: the mirror image of Map. */
  function MapLeft<L, R, B>(e: Either<L, R>, mapping: Nullable<L -> Nullable<B>>): (result: Outcome<Either<B, R>>)
    ensures mapping.Null? ==> result == Thrown(ArgumentNull("function"))
    ensures mapping.NonNull? ==> result.Ok?
  {
    var _ :- Validate(mapping, "function");
    Ok(match e
       case Left(l) => FromLeft(mapping.value(l))
       case Right(r) => FromRight(NonNull(r))
       case Neither => Neither)
  }

  /** `Bind` (and the instance `BindAsync`): the Either returned by `bind` is the result. */
  function Bind<L, R, B>(e: Either<L, R>, bind: Nullable<R -> Either<L, B>>): (result: Outcome<Either<L, B>>)
    ensures bind.Null? ==> result == Thrown(ArgumentNull("function"))
    ensures bind.NonNull? ==> result.Ok?
    ensures result.Ok? && e.Right? ==> result.value == bind.value(e.right)
    ensures result.Ok? && e.Left? ==> result.value == Left(e.left)
    ensures result.Ok? && e.Neither? ==> result.value == Neither
  {
    var _ :- Validate(bind, "function");
    Ok(match e
       case Right(r) => bind.value(r)
       case Left(l) => FromLeft(NonNull(l))
       case Neither => Neither)
  }

  /** `BindLeft`: the mirror image of Bind. */
  function BindLeft<L, R, B>(e: Either<L, R>, bind: Nullable<L -> Either<B, R>>): (result: Outcome<Either<B, R>>)
    ensures bind.Null? ==> result == Thrown(ArgumentNull("function"))
    ensures bind.NonNull? ==> result.Ok?
  {
    var _ :- Validate(bind, "function");
    Ok(match e
       case Left(l) => bind.value(l)
       case Right(r) => FromRight(NonNull(r))
       case Neither => Neither)
  }

  /***** Effects *****/

  /** `DoRight` (and the instance `DoRightAsync`). */
  function DoRight<L, R>(e: Either<L, R>, right: Action): (result: Outcome<Run<Unit, Call<L, R>>>)
    ensures right.Null? ==> result == Thrown(ArgumentNull("action"))
    ensures right.NonNull? ==> result.Ok? && |result.value.calls| <= 1
    ensures result.Ok? ==> (result.value.calls != [] <==> e.Right?)
  {
    var _ :- Validate(right, "action");
    Ok(Run(Default, if e.Right? then [RightCalled(e.right)] else []))
  }

  /** `DoLeftOrNeither(leftOrNeither)`: one action for both non-Right states. */
  function DoLeftOrNeither<L, R>(e: Either<L, R>, leftOrNeither: Action): (result: Outcome<Run<Unit, Call<L, R>>>)
    ensures leftOrNeither.Null? ==> result == Thrown(ArgumentNull("action"))
    ensures leftOrNeither.NonNull? ==> result.Ok?
    ensures result.Ok? ==> result.value.calls == (if e.Right? then [] else [LeftOrNeitherCalled])
  {
    var _ :- Validate(leftOrNeither, "action");
    Ok(Run(Default, if !e.Right? then [LeftOrNeitherCalled] else []))
  }

  /** `DoLeftOrNeither(left, neither)` (and `DoLeftOrNeitherAsync`): both actions are
      checked, then `left` runs for Left and `neither` for Neither, one after the other. */
  function DoLeftOrNeitherSplit<L, R>(e: Either<L, R>, left: Action, neither: Action): (result: Outcome<Run<Unit, Call<L, R>>>)
    ensures left.Null? || neither.Null? <==> result.Thrown?
    ensures result.Thrown? ==> result.error == ArgumentNull("action")
    ensures result.Ok? ==> |result.value.calls| <= 1 && (result.value.calls == [] <==> e.Right?)
  {
    var _ :- Validate(left, "action");
    var _ :- Validate(neither, "action");
    Ok(Run(Default,
           (if e.Left? then [LeftCalled(e.left)] else [])
           + (if e.Neither? then [NeitherCalled] else [])))
  }

  /***** Conversion *****/

  /** `ToMaybe`: the Right payload, if any. */
  function ToMaybe<L, R>(e: Either<L, R>): (m: Maybe<R>)
    ensures m.Some? <==> e.Right?
    ensures m.Some? ==> m.value == e.right
  {
    if e.Right? then From(NonNull(e.right)) else None
  }

  /***** Query bindings *****/

  /** `Select`: a Match whose Right branch invokes `mapping` without a null check. */
  function Select<L, R, B>(e: Either<L, R>, mapping: Nullable<R -> Nullable<B>>): (result: Outcome<Either<L, B>>)
    ensures mapping.NonNull? ==> result == Map(e, mapping)
    ensures mapping.Null? ==> (result.Thrown? <==> e.Right?)
    ensures result.Thrown? ==> result.error == NullReference
    ensures e.Left? ==> result == Ok(Left(e.left))
    ensures e.Neither? ==> result == Ok(Neither)
  {
    Join(Match(e,
               NonNull((l: L) => Ok(FromLeft<L, B>(NonNull(l)))),
               NonNull((r: R) => var b :- Invoke(mapping, r); Ok(FromRight<L, B>(b))),
               Ok(Neither)))
  }

  /** `SelectMany`: `Bind(x => bind(x).Bind(y => FromRight(project(x, y))))`; a null
      projection gives Neither, a null delegate throws only once it is reached. */
  function SelectMany<L, R, I, B>(e: Either<L, R>, bind: Nullable<R -> Either<L, I>>, project: Nullable<(R, I) -> Nullable<B>>): (result: Outcome<Either<L, B>>)
    ensures bind.NonNull? && project.NonNull? ==>
              result == Bind(e, NonNull((x: R) => Bind(bind.value(x), NonNull((y: I) => FromRight<L, B>(project.value(x, y)))).value))
    ensures result.Thrown? ==> e.Right? && result.error == NullReference
    ensures e.Left? ==> result == Ok(Left(e.left))
    ensures e.Neither? ==> result == Ok(Neither)
    ensures e.Right? && bind.Null? ==> result == Thrown(NullReference)
    ensures e.Right? && bind.NonNull? && bind.value(e.right).Left? ==> result == Ok(Left(bind.value(e.right).left))
    ensures e.Right? && bind.NonNull? && bind.value(e.right).Neither? ==> result == Ok(Neither)
    ensures e.Right? && bind.NonNull? && bind.value(e.right).Right? && project.Null? ==> result == Thrown(NullReference)
    ensures e.Right? && bind.NonNull? && bind.value(e.right).Right? && project.NonNull? ==>
              result == Ok(FromRight(project.value(e.right, bind.value(e.right).right)))
  {
    match e
    case Neither => Ok(Neither)
    case Left(l) => Ok(Left(l))
    case Right(x) =>
      var bound :- Invoke(bind, x);
      match bound
      case Neither => Ok(Neither)
      case Left(l) => Ok(Left(l))
      case Right(y) =>
        var p :- Invoke2(project, x, y);
        Ok(FromRight(p))
  }

  /** `Where`: only a Right whose payload passes survives; Left and Neither become
      Neither without the predicate being invoked. */
  function Where<L, R>(e: Either<L, R>, pred: Nullable<R -> bool>): (result: Outcome<Either<L, R>>)
    ensures result.Thrown? <==> e.Right? && pred.Null?
    ensures result.Thrown? ==> result.error == NullReference
    ensures result.Ok? ==> (result.value.Right? <==> e.Right? && pred.value(e.right))
    ensures result.Ok? ==> result.value == e || result.value == Neither
  {
    if !e.Right? then Ok(Neither)
    else
      var keep :- Invoke(pred, e.right);
      Ok(if keep then e else Neither)
  }

  /***** Laws *****/

  /** Exactly one of IsLeft, IsRight and IsNeither holds. */
  lemma StatesAreExclusive<L, R>(e: Either<L, R>)
    ensures (if e.Left? then 1 else 0) + (if e.Right? then 1 else 0) + (if e.Neither? then 1 else 0) == 1
  {
  }

  /** Building with FromRight and reading back with RightOrDefault returns the value,
      or the fallback when the value was null; LeftOrDefault always falls back. */
  lemma RightOrDefaultOfFromRight<L, R>(value: Nullable<R>, d: Nullable<R>, dl: Nullable<L>)
    ensures RightOrDefault(FromRight<L, R>(value), d) == if value.Null? then d else value
    ensures LeftOrDefault(FromRight<L, R>(value), dl) == dl
  {
  }

  /** The mirror image for FromLeft and LeftOrDefault. */
  lemma LeftOrDefaultOfFromLeft<L, R>(value: Nullable<L>, d: Nullable<L>, dr: Nullable<R>)
    ensures LeftOrDefault(FromLeft<L, R>(value), d) == if value.Null? then d else value
    ensures RightOrDefault(FromLeft<L, R>(value), dr) == dr
  {
  }

  /** Matching with the constructors rebuilds the value. */
  lemma MatchRebuilds<L, R>(e: Either<L, R>)
    ensures Match(e, NonNull((l: L) => Left(l)), NonNull((r: R) => Right(r)), Neither) == Ok(e)
  {
  }

  /** A null callback is reported whatever the state: Match validates before it inspects. */
  lemma MatchValidatesFirst<L, R, T>(e: Either<L, R>, e': Either<L, R>, left: Nullable<L -> T>, right: Nullable<R -> T>, neither: T)
    requires left.Null? || right.Null?
    ensures Match(e, left, right, neither) == Match(e', left, right, neither)
    ensures Match(e, left, right, neither).Thrown?
  {
  }

  /** The two-way Match agrees with the three-way Match given the same value for Left and Neither. */
  lemma MatchRightIsMatch<L, R, T>(e: Either<L, R>, leftOrNeither: T, right: R -> T)
    ensures MatchRight(e, leftOrNeither, NonNull(right)) == Match(e, NonNull((l: L) => leftOrNeither), NonNull(right), leftOrNeither)
  {
  }

  /** Map by the identity leaves every value unchanged. */
  lemma MapIdentity<L, R>(e: Either<L, R>)
    ensures Map(e, NonNull((r: R) => NonNull(r))) == Ok(e)
  {
  }

  /** Mapping twice is mapping once by the null-propagating composition. */
  lemma MapComposition<L, R, B, C>(e: Either<L, R>, f: R -> Nullable<B>, g: B -> Nullable<C>)
    ensures Map(Map(e, NonNull(f)).value, NonNull(g)) == Map(e, NonNull(Then(f, g)))
  {
  }

  /** Map is Bind followed by the null-collapsing FromRight. */
  lemma MapIsBind<L, R, B>(e: Either<L, R>, f: R -> Nullable<B>)
    ensures Map(e, NonNull(f)) == Bind(e, NonNull((r: R) => FromRight<L, B>(f(r))))
  {
  }

  /** MapLeft is Map seen through Swap. */
  lemma MapLeftMirrorsMap<L, R, B>(e: Either<L, R>, mapping: Nullable<L -> Nullable<B>>)
    ensures MapLeft(e, mapping) == (var m :- Map(Swap(e), mapping); Ok(Swap(m)))
  {
  }

  /** BindLeft is Bind seen through Swap. */
  lemma BindLeftMirrorsBind<L, R, B>(e: Either<L, R>, f: L -> Either<B, R>)
    ensures BindLeft(e, NonNull(f)) == Ok(Swap(Bind(Swap(e), NonNull((l: L) => Swap(f(l)))).value))
  {
  }

  /** Binding a freshly built Right applies the function. */
  lemma BindLeftIdentity<L, R, B>(r: R, f: R -> Either<L, B>)
    ensures Bind(FromRight<L, R>(NonNull(r)), NonNull(f)) == Ok(f(r))
  {
  }

  /** Binding the Right constructor leaves every value unchanged. */
  lemma BindRightIdentity<L, R>(e: Either<L, R>)
    ensures Bind(e, NonNull((r: R) => Right(r))) == Ok(e)
  {
  }

  /** Bind is associative. */
  lemma BindAssociative<L, R, B, C>(e: Either<L, R>, f: R -> Either<L, B>, g: B -> Either<L, C>)
    ensures Bind(Bind(e, NonNull(f)).value, NonNull(g))
         == Bind(e, NonNull((r: R) => Bind(f(r), NonNull(g)).value))
  {
  }

  /** Filtering twice is filtering once by the conjunction, so Where is idempotent. */
  lemma WhereConjunction<L, R>(e: Either<L, R>, p: R -> bool, q: R -> bool)
    ensures Where(Where(e, NonNull(p)).value, NonNull(q)) == Where(e, NonNull((r: R) => p(r) && q(r)))
    ensures Where(Where(e, NonNull(p)).value, NonNull(p)) == Where(e, NonNull(p))
  {
  }

  /** A Left does not pass through Where: it becomes Neither whatever the predicate. */
  lemma WhereDropsLeft<L, R>(l: L, pred: Nullable<R -> bool>)
    ensures Where(Left(l), pred) == Ok(Neither)
  {
  }

  /** A null projection result makes SelectMany give Neither, with no exception. */
  lemma SelectManyNullProjection<L, R, I, B>(x: R, y: I, bind: R -> Either<L, I>, project: (R, I) -> Nullable<B>)
    requires bind(x) == Right(y) && project(x, y).Null?
    ensures SelectMany(Right(x), NonNull(bind), NonNull(project)) == Ok(Neither)
  {
  }

  /** DoRight and DoLeftOrNeither(left, neither) together invoke exactly one callback,
      the one Match would select. */
  lemma EffectsCoverEachStateOnce<L, R>(e: Either<L, R>)
    ensures var calls := DoRight(e, NonNull(Default)).value.calls + DoLeftOrNeitherSplit(e, NonNull(Default), NonNull(Default)).value.calls;
            Ok(calls) == Match(e, NonNull((l: L) => [LeftCalled(l)]), NonNull((r: R) => [RightCalled(r)]), [NeitherCalled])
  {
    var right := DoRight(e, NonNull(Default)).value.calls;
    var others := DoLeftOrNeitherSplit(e, NonNull(Default), NonNull(Default)).value.calls;
    var expected := Match(e, NonNull((l: L) => [LeftCalled(l)]), NonNull((r: R) => [RightCalled(r)]), [NeitherCalled]).value;
    match e
    case Left(l) =>
      assert right == [] && others == [LeftCalled(l)] && expected == [LeftCalled(l)];
      assert right + others == expected;
    case Right(r) =>
      assert right == [RightCalled(r)] && others == [] && expected == [RightCalled(r)];
      assert right + others == expected;
    case Neither =>
      assert right == [] && others == [NeitherCalled] && expected == [NeitherCalled];
      assert right + others == expected;
  }

  /** DoRight and the single-action DoLeftOrNeither together invoke exactly one
      callback, the one the two-way Match selects. */
  lemma DoLeftOrNeitherComplementsDoRight<L, R>(e: Either<L, R>)
    ensures var calls := DoRight(e, NonNull(Default)).value.calls + DoLeftOrNeither(e, NonNull(Default)).value.calls;
            Ok(calls) == MatchRight(e, [LeftOrNeitherCalled], NonNull((r: R) => [RightCalled(r)]))
  {
    var right := DoRight(e, NonNull(Default)).value.calls;
    var others := DoLeftOrNeither(e, NonNull(Default)).value.calls;
    if e.Right? {
      assert right == [RightCalled(e.right)] && others == [];
      assert right + others == [RightCalled(e.right)];
    } else {
      assert right == [] && others == [LeftOrNeitherCalled];
      assert right + others == [LeftOrNeitherCalled];
    }
  }

  /** ToMaybe of FromRight is the Maybe constructor on the same value. */
  lemma ToMaybeOfFromRight<L, R>(value: Nullable<R>)
    ensures ToMaybe(FromRight<L, R>(value)) == From(value)
  {
  }

  /** An awaited null with a fallback left (`FromRightAsync(null, 3)` in the tests) is
      that Left: LeftOrDefault reads the fallback back and RightOrDefault falls back. */
  lemma FromRightOrFallsBack<L, R>(l: L, dl: Nullable<L>, dr: Nullable<R>)
    ensures FromRightOr<L, R>(Null, NonNull(l)) == Left(l)
    ensures LeftOrDefault(FromRightOr<L, R>(Null, NonNull(l)), dl) == NonNull(l)
    ensures RightOrDefault(FromRightOr<L, R>(Null, NonNull(l)), dr) == dr
  {
  }
}
