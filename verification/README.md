# EasyMonads in Dafny

This project models the core of EasyMonads, a C# library of two small monads.
`Either<TLeft, TRight>` is a sum type whose states are Left, Right and an empty
state. `Maybe<TValue>` is an optional value. The library exists in two
generations, and both are modelled:

- the current `EasyMonads` namespace: `Either` with the empty state `Neither`,
  `Maybe`, the `Core` factories, the task (`async`) extension members, and the
  query bindings over sequences of Either;
- the older `Monads` namespace: `Either` with the empty state `Bottom`, and
  `Option`, each with its task extension members.

These rules matter throughout:

- Every way of building a value collapses a null payload to the empty state.
- The validating members check their delegates before looking at the state,
  and raise `ArgumentNullException` naming the parameter.
- The query members (`Select`, `SelectMany`, `Where`, synchronous and task
  forms), the older generation's task members, the current Maybe's task
  members and the current Either's `BindAsync(bindAsync)` invoke user
  delegates inside lambdas. A null delegate there raises
  `NullReferenceException`, and only once the delegate is reached.
- The current Either's task members `MapAsync`, `MapLeftAsync`,
  `BindAsync(bind)` and `BindLeftAsync` hand the delegate to a validating
  Match instead, so a null one raises `ArgumentNullException` naming `right`
  or `left`: in every state for the two Map forms, and only once a Right
  (resp. Left) is reached for the two Bind forms.

Three behaviours of the code are easy to misread, and the model follows the
code in each:

- EasyEither.Where turns a Left into Neither, whatever the predicate
  (EasyMonads/Either/Either.cs:373-383; the test `Where_Works_For_Left_Either`
  in EasyMonads.Test/EitherTests/QueryTests/WhereTests.cs:22-30 expects it).
- EasyEither.SelectMany sends a null projection result through FromRight, so it
  gives Neither rather than an exception (EasyEither.SelectManyNullProjection).
  The Maybe and Option queries raise InvalidOperationException instead.
- The task form of EasyEither's `BindAsync` checks `bind` only when the value is
  Right (EasyEitherAsync.BindAsyncChecksLazily), whereas the synchronous Bind
  checks it in every state.

Modelling conventions (module `Base`):

- A value or delegate that may be null is a `Nullable<T>`.
- A user callback is a pure function behind a `Nullable`.
- A member that may throw returns an `Outcome<T>`: either `Ok(value)` or
  `Thrown(exception)`.
- An awaited `Task<T>` is its result.
- Effect members (`DoRight`, `IfSome`, …) return a `Run` that lists the
  callbacks they invoked.
- `default(TResult)` appears where the source relies on it, as an explicit
  parameter (`defaultResult`).

Every synchronous operation has a partner law:

- identity, composition and associativity laws for Map and Bind;
- conjunction (and with it idempotence) for Where;
- rebuild-by-Match;
- the build-and-read-back laws of the constructors;
- mirror laws between the Left and Right members.

Every task member is proved equal to the synchronous member it mirrors,
or shown to differ on a named input (see "## Findings"). The older
generation is related to the current one by a one-to-one translation,
under which Map, Bind, Where and SelectMany agree.

## Model

| member | source | states |
|---|---|---|
| Base.Validate | EasyMonads/Either/Either.cs:105-148 | an argument check fails exactly when the delegate is null, and then fails with ArgumentNullException naming the parameter |
| EasyMaybeType.From | EasyMonads/Maybe/Maybe.cs:11-35 | the Maybe constructor gives Some exactly for a non-null value, and that Some holds the value |
| EasyMaybeType.FromIsInjective | EasyMonads/Maybe/Maybe.cs:11-35 | two constructions give equal Maybes exactly when the values were equal (null included) |
| EasyCore.Maybe | EasyMonads/Maybe/Core.cs:15 | `Core.Maybe` collapses null to None and is the constructor |
| EasyCore.Some | EasyMonads/Maybe/Core.cs:24-32 | `Core.Some` throws ArgumentNullException("value") for null and otherwise gives Some of the value |
| EasyCore.FromNullable | EasyMonads/Maybe/Core.cs:45-46 | `Maybe.FromNullable` gives Some exactly for a non-null value |
| EasyCore.FactoriesAgree | EasyMonads.Test/MaybeTests/CoreTests.cs:17-47 | the strict factory succeeds exactly where the collapsing one gives Some and then agrees with it; FromNullable is the collapsing factory |
| EasyCore.Equality | EasyMonads.Test/MaybeTests/EquatableTests.cs:11-50 | Maybe(a) equals Some(b) exactly when a equals b; a Maybe of a value differs from None; Maybe of null is None |
| EasyEither.FromRight | EasyMonads/Either/Either.cs:44-49 | building from a right payload gives Neither exactly for null, otherwise Right of the payload |
| EasyEither.FromLeft | EasyMonads/Either/Either.cs:67-80 | building from a left payload gives Neither exactly for null, otherwise Left of the payload |
| EasyEither.FromRightOr | EasyMonads/Either/Either.cs:59-65 | an awaited non-null right gives Right; an awaited null falls back to FromLeft of the fallback |
| EasyEither.RightOrDefault | EasyMonads/Either/Either.cs:91-96 | the Right payload when there is one, the fallback in every other state |
| EasyEither.LeftOrDefault | EasyMonads/Either/Either.cs:98-103 | the Left payload when there is one, the fallback in every other state |
| EasyEither.Match | EasyMonads/Either/Either.cs:150-213 | a null `left` is reported first, then a null `right`, whatever the state; with both present the callback of the current state is applied |
| EasyEither.MatchRight | EasyMonads/Either/Either.cs:164-171 | a null `right` throws ArgumentNullException("function"); otherwise Right maps through `right` and Left and Neither share one value |
| EasyEither.Map | EasyMonads/Either/Either.cs:215-224 | a null function throws in every state; a Right maps through the function and collapses a null result to Neither; Left and Neither are kept |
| EasyEither.MapLeft | EasyMonads/Either/Either.cs:226-235 | a null function throws ArgumentNullException("function"); a non-null one never throws |
| EasyEither.Bind | EasyMonads/Either/Either.cs:248-257 | a null function throws in every state; a Right becomes what the function returns; Left and Neither are kept |
| EasyEither.BindLeft | EasyMonads/Either/Either.cs:259-268 | a null function throws ArgumentNullException("function"); a non-null one never throws |
| EasyEither.DoRight | EasyMonads/Either/Either.cs:281-291 | a null action throws; otherwise the action runs at most once, and runs exactly when the value is Right |
| EasyEither.DoLeftOrNeither | EasyMonads/Either/Either.cs:305-315 | a null action throws; otherwise the single action runs exactly when the value is not Right |
| EasyEither.DoLeftOrNeitherSplit | EasyMonads/Either/Either.cs:317-351 | it throws exactly when either action is null; otherwise at most one action runs, and none for a Right |
| EasyEither.ToMaybe | EasyMonads/Either/Either.cs:353-358 | Some exactly for a Right, holding the Right payload |
| EasyEither.Select | EasyMonads/Either/Either.cs:360-366 | with a non-null delegate it is Map; a null delegate throws NullReferenceException exactly for a Right; a Left or Neither comes back unchanged whatever the delegate |
| EasyEither.SelectMany | EasyMonads/Either/Either.cs:368-371 | Left and Neither come back unchanged; on a Right a null `bind` throws NullReferenceException, a bound Left or Neither is the result, and a bound Right gives FromRight of the projection, or NullReferenceException for a null `project`; with non-null delegates it is a Bind of `bind` followed by a Bind to FromRight |
| EasyEither.Where | EasyMonads/Either/Either.cs:373-383 | the result is Right exactly for a Right whose payload passes, which is then kept unchanged; everything else becomes Neither; the predicate is invoked only for a Right |
| EasyEither.StatesAreExclusive | EasyMonads/Either/Either.cs:82-89 | exactly one of IsLeft, IsRight and IsNeither holds |
| EasyEither.RightOrDefaultOfFromRight | EasyMonads.Test/Either_Tests.cs:54-101 | reading back a FromRight returns the payload, or the fallback for null; LeftOrDefault of it always falls back |
| EasyEither.LeftOrDefaultOfFromLeft | EasyMonads.Test/Either_Tests.cs:103-151 | reading back a FromLeft returns the payload, or the fallback for null; RightOrDefault of it always falls back |
| EasyEither.MatchRebuilds | EasyMonads/Either/Either.cs:150-213 | matching with the three constructors gives back the same value |
| EasyEither.MatchValidatesFirst | EasyMonads/Either/Either.cs:150-213 | with a null callback, Match throws, and the exception does not depend on the state |
| EasyEither.MatchRightIsMatch | EasyMonads/Either/Either.cs:164-171 | the two-way Match is the three-way Match with one value shared by Left and Neither |
| EasyEither.MapIdentity | EasyMonads/Either/Either.cs:215-224 | mapping by the identity changes no value |
| EasyEither.MapComposition | EasyMonads/Either/Either.cs:215-224 | mapping by f and then by g is mapping once by their null-propagating composition |
| EasyEither.MapIsBind | EasyMonads/Either/Either.cs:215-257 | Map is Bind to FromRight of the function's result |
| EasyEither.MapLeftMirrorsMap | EasyMonads/Either/Either.cs:226-235 | MapLeft is Map with the two arms exchanged before and after |
| EasyEither.BindLeftMirrorsBind | EasyMonads/Either/Either.cs:259-268 | BindLeft is Bind with the two arms exchanged before and after |
| EasyEither.BindLeftIdentity | EasyMonads/Either/Either.cs:248-257 | binding a freshly built Right applies the function to its payload |
| EasyEither.BindRightIdentity | EasyMonads/Either/Either.cs:248-257 | binding the Right constructor changes no value |
| EasyEither.BindAssociative | EasyMonads/Either/Either.cs:248-257 | binding f and then g is binding once by "f, then bind g" |
| EasyEither.WhereConjunction | EasyMonads/Either/Either.cs:373-383 | filtering by p and then q is filtering once by p and q; filtering twice by p is filtering once |
| EasyEither.WhereDropsLeft | EasyMonads.Test/EitherTests/QueryTests/WhereTests.cs:8-40 | a Left becomes Neither under Where, whatever the predicate, even a null one |
| EasyEither.SelectManyNullProjection | EasyMonads/Either/Either.cs:368-371 | a projection that returns null makes SelectMany give Neither, with no exception |
| EasyEither.EffectsCoverEachStateOnce | EasyMonads/Either/Either.cs:281-351 | DoRight followed by DoLeftOrNeither(left, neither) invokes exactly one callback, the one Match selects for the state |
| EasyEither.DoLeftOrNeitherComplementsDoRight | EasyMonads/Either/Either.cs:281-315 | DoRight followed by the single-action DoLeftOrNeither invokes exactly one callback, the one the two-way Match selects |
| EasyEither.ToMaybeOfFromRight | EasyMonads/Either/Either.cs:353-358 | converting a FromRight to a Maybe is the Maybe constructor on the same payload |
| EasyEither.FromRightOrFallsBack | EasyMonads.Test/Either_Tests.cs:206-231 | an awaited null with a fallback left is that Left: LeftOrDefault gives the fallback left back and RightOrDefault falls back (the test uses null and 3) |
| EasyMaybe.IfSome | EasyMonads/Maybe/Maybe.cs:43-71 | a null action throws ArgumentNullException("some"); otherwise the action runs exactly for a Some, and the value itself is returned |
| EasyMaybe.IfNone | EasyMonads/Maybe/Maybe.cs:73-86 | a null action throws ArgumentNullException("none"); otherwise the action runs exactly for None, and the value itself is returned |
| EasyMaybe.SomeOrDefault | EasyMonads/Maybe/Maybe.cs:88-93 | the payload of a Some, the fallback for None |
| EasyMaybe.Match | EasyMonads/Maybe/Maybe.cs:95-105 | a null `some` throws ArgumentNullException("some"); otherwise a Some maps through `some` and None gives the given value |
| EasyMaybe.MatchLazy | EasyMonads/Maybe/Maybe.cs:107-173 | a null `none` is reported first, then a null `some`; with both present it is Match with the value `none()` |
| EasyMaybe.Map | EasyMonads/Maybe/Maybe.cs:175-197 | a null function throws in every state; the result is Some exactly for a Some whose mapped value is non-null, and holds that value |
| EasyMaybe.Bind | EasyMonads/Maybe/Maybe.cs:199-221 | a null function throws in every state; a Some becomes what the function returns and None stays None |
| EasyMaybe.ToEither | EasyMonads/Maybe/Maybe.cs:223-228 | Right exactly for a Some, with its payload; None gives FromLeft of the fallback |
| EasyMaybe.ToLeftEither | EasyMonads/Maybe/Maybe.cs:230-235 | ToLeftEither() is ToLeftEither with the Unit value as the right fallback |
| EasyMaybe.ToLeftEitherWith | EasyMonads/Maybe/Maybe.cs:237-242 | Left exactly for a Some, with its payload; None gives FromRight of the fallback |
| EasyMaybe.Select | EasyMonads/Maybe/Maybe.cs:244-249 | with a non-null delegate it is Map; a null delegate throws NullReferenceException exactly for a Some; None gives None whatever the delegate |
| EasyMaybe.SelectMany | EasyMonads/Maybe/Maybe.cs:251-273 | None stays None; on a Some a null `bind` throws NullReferenceException and a bound None gives None; on a bound Some a null `project` throws NullReferenceException, a null projection result throws InvalidOperationException, and otherwise the result is Some of the projection |
| EasyMaybe.Where | EasyMonads/Maybe/Maybe.cs:275-281 | a Some is kept exactly when its payload passes, and otherwise becomes None; the predicate is invoked only for a Some |
| EasyMaybe.SomeOrDefaultOfFrom | EasyMonads/Maybe/Maybe.cs:88-93 | reading back a constructed Maybe returns the value, or the fallback for null |
| EasyMaybe.MapThenSomeOrDefault | EasyMonads/Maybe/Maybe.cs:175-197 | mapping a present value and reading it back gives the mapped value, or the fallback when the mapping gives null |
| EasyMaybe.EffectsCoverEachStateOnce | EasyMonads/Maybe/Maybe.cs:43-86 | IfSome followed by IfNone invokes exactly one action, the one Match selects |
| EasyMaybe.MatchRebuilds | EasyMonads/Maybe/Maybe.cs:95-105 | matching with the constructors gives back the same value |
| EasyMaybe.MapIdentity | EasyMonads/Maybe/Maybe.cs:175-197 | mapping by the identity changes no value |
| EasyMaybe.MapComposition | EasyMonads/Maybe/Maybe.cs:175-197 | mapping by f and then g is mapping once by their null-propagating composition |
| EasyMaybe.MapIsBind | EasyMonads/Maybe/Maybe.cs:175-221 | Map is Bind to the constructor applied to the function's result |
| EasyMaybe.BindIdentities | EasyMonads/Maybe/Maybe.cs:199-221 | binding a Some applies the function; binding the Some constructor changes no value |
| EasyMaybe.BindAssociative | EasyMonads/Maybe/Maybe.cs:199-221 | binding f and then g is binding once by "f, then bind g" |
| EasyMaybe.WhereConjunction | EasyMonads/Maybe/Maybe.cs:275-281 | filtering by p and then q is filtering once by p and q; Where is idempotent |
| EasyMaybe.SelectManyIsBindOfMap | EasyMonads/Maybe/Maybe.cs:251-273 | with a projection that never returns null, SelectMany is a Bind of a Map |
| EasyMaybe.ToEitherToMaybe | EasyMonads/Maybe/Maybe.cs:223-228 | converting a Maybe to an Either and back gives the original, whatever the left fallback |
| EasyMaybe.ToLeftEitherMirrorsToEither | EasyMonads/Maybe/Maybe.cs:223-242 | ToLeftEither is ToEither with the two arms exchanged |
| EasyEitherAsync.MapAsync | EasyMonads/Either/EitherAsyncExtensions.cs:44-66 | with a non-null function it is Bind; a null one is reported as ArgumentNullException("right") in every state |
| EasyEitherAsync.MapLeftAsync | EasyMonads/Either/EitherAsyncExtensions.cs:52-58 | with a non-null function it is BindLeft; a null one is reported as ArgumentNullException("left") in every state |
| EasyEitherAsync.BindAsync | EasyMonads/Either/EitherAsyncExtensions.cs:78-86 | with a non-null function it is Bind; a null one throws ArgumentNullException("right") exactly for a Right; Left and Neither pass through |
| EasyEitherAsync.BindAsyncAwaited | EasyMonads/Either/EitherAsyncExtensions.cs:68-76 | with a non-null function it is Bind, and the other BindAsync; a null one throws NullReferenceException exactly for a Right |
| EasyEitherAsync.BindLeftAsync | EasyMonads/Either/EitherAsyncExtensions.cs:88-96 | with a non-null function it is BindLeft; a null one throws ArgumentNullException("left") exactly for a Left |
| EasyEitherAsync.ToMaybeTask | EasyMonads/Either/EitherAsyncExtensions.cs:98-104 | it is the synchronous ToMaybe |
| EasyEitherAsync.Select | EasyMonads/Either/EitherAsyncExtensions.cs:106-112 | it is the synchronous Select, and Map for a non-null function |
| EasyEitherAsync.SelectMany | EasyMonads/Either/EitherAsyncExtensions.cs:114-122 | it is the synchronous SelectMany |
| EasyEitherAsync.Where | EasyMonads/Either/EitherAsyncExtensions.cs:124-132 | as written: it throws NullReferenceException exactly for a Right with a null predicate, and otherwise the result is Right exactly when the input is Right |
| EasyEitherAsync.WhereIntended | EasyMonads/Either/EitherAsyncExtensions.cs:124-132 | the corrected task Where is the synchronous Where |
| EasyEitherAsync.WhereIgnoresPredicate | EasyMonads/Either/EitherAsyncExtensions.cs:124-132 | the task Where keeps every Right, so it differs from the synchronous Where on each Right the predicate rejects |
| EasyEitherAsync.WhereAgreesOffRight | EasyMonads/Either/EitherAsyncExtensions.cs:124-132 | on Left and Neither the task Where and the synchronous Where both give Neither |
| EasyEitherAsync.BindAsyncChecksLazily | EasyMonads/Either/EitherAsyncExtensions.cs:78-86 | with a null function, Bind throws on a Left but BindAsync lets the Left through |
| EasyMaybeAsync.BindAsync | EasyMonads/Maybe/MaybeAsyncExtensions.cs:32-37 | with a non-null function it is Map; a null one throws NullReferenceException exactly for a Some |
| EasyMaybeAsync.ToEitherAsync | EasyMonads/Maybe/MaybeAsyncExtensions.cs:39-44 | it is the synchronous ToEither |
| EasyMaybeAsync.ToLeftEitherAsync | EasyMonads/Maybe/MaybeAsyncExtensions.cs:46-51 | it is the synchronous ToLeftEither with a right fallback |
| EasyMaybeAsync.Select | EasyMonads/Maybe/MaybeAsyncExtensions.cs:53-58 | it is the synchronous Select, and the task BindAsync |
| EasyMaybeAsync.SelectMany | EasyMonads/Maybe/MaybeAsyncExtensions.cs:60-79 | as written: a Some whose `bind` gives None yields Some(default) when the default result is not null; in every other case, throws included, it is the synchronous SelectMany |
| EasyMaybeAsync.SelectManyIntended | EasyMonads/Maybe/MaybeAsyncExtensions.cs:60-79 | the corrected task SelectMany is the synchronous SelectMany |
| EasyMaybeAsync.Where | EasyMonads/Maybe/MaybeAsyncExtensions.cs:81-91 | it is the synchronous Where |
| EasyMaybeAsync.SelectManyLeaksDefault | EasyMonads/Maybe/MaybeAsyncExtensions.cs:60-79 | for any value whose `bind` gives None and any non-null default, the task SelectMany gives Some(default) where the synchronous one gives None (for `int`, Some(0)) |
| EasyMaybeAsync.SelectManyAgreesWhenBound | EasyMonads/Maybe/MaybeAsyncExtensions.cs:60-79 | whenever `bind` gives a Some, the as-written task SelectMany agrees with the synchronous one |
| EasyMaybeAsync.BindAsyncChecksLazily | EasyMonads/Maybe/MaybeAsyncExtensions.cs:32-37 | with a null function, Map throws on None but BindAsync gives None |
| EasyMaybeAsync.BindAsyncScenario | EasyMonads/Maybe/MaybeAsyncExtensions.cs:32-37 | Some(5) bound to its text gives Some("5"); None stays None |
| EasyEitherEnumerable.Enumerate | EasyMonads/Either/EitherEnumerableExtensions.cs:9-18 | enumeration succeeds exactly when every element's projection does, giving each projected value in order; otherwise it throws the exception of the first element that throws |
| EasyEitherEnumerable.Select | EasyMonads/Either/EitherEnumerableExtensions.cs:9-12 | each element is the synchronous Map of the element at the same index; a null function throws exactly when the sequence is non-empty |
| EasyEitherEnumerable.SelectMany | EasyMonads/Either/EitherEnumerableExtensions.cs:14-18 | each element is the synchronous SelectMany of the element at the same index; non-null delegates never throw; a throw needs some Right element |
| EasyEitherEnumerable.EnumerateAppend | EasyMonads/Either/EitherEnumerableExtensions.cs:9-18 | enumerating a concatenation is enumerating each part and concatenating, with the first part's exception taking precedence |
| EasyEitherEnumerable.SelectPreservesNonRight | EasyMonads/Either/EitherEnumerableExtensions.cs:9-12 | Left and Neither elements come out in place and unchanged; a Right comes out as FromRight of its mapped payload |
| EasyEitherEnumerable.SelectComposition | EasyMonads/Either/EitherEnumerableExtensions.cs:9-12 | selecting by f and then g is selecting once by their null-propagating composition |
| EasyEitherEnumerable.SelectManyScenario | EasyMonads.Test/EitherTests/QueryTests/IEnumerableSelectTests.cs:10-44 | a query binding each of 0, 1, 2 to a Right text gives those Rights, in order |
| LegacyEither.FromRight | Monads/Either/Either.cs:44-57 | building from a right payload gives Bottom exactly for null, otherwise Right of the payload |
| LegacyEither.FromLeft | Monads/Either/Either.cs:67-72 | building from a left payload gives Bottom exactly for null, otherwise Left of the payload |
| LegacyEither.FromRightOr | Monads/Either/Either.cs:59-65 | an awaited non-null right gives Right; an awaited null falls back to FromLeft of the fallback |
| LegacyEither.RightOrDefault | Monads/Either/Either.cs:88-93 | the Right payload when there is one, the fallback in every other state |
| LegacyEither.LeftOrDefault | Monads/Either/Either.cs:95-100 | the Left payload when there is one, the fallback in every other state |
| LegacyEither.Match | Monads/Either/Either.cs:102-174 | a null `left` is reported first, then a null `right`; a Bottom uses the `bottom` callback when there is one and `default(TResult)` otherwise |
| LegacyEither.Map | Monads/Either/Either.cs:176-188 | a null function throws ArgumentNullException("map") in every state; a Right maps and collapses a null result to Bottom; Left and Bottom are kept |
| LegacyEither.MapLeft | Monads/Either/Either.cs:190-202 | a null function throws ArgumentNullException("map"); a Left maps and collapses a null result to Bottom; Right and Bottom are kept |
| LegacyEither.Bind | Monads/Either/Either.cs:218-244 | a null function throws ArgumentNullException("bind") in every state; a Right becomes what the function returns; Left and Bottom are kept |
| LegacyEither.DoRight | Monads/Either/Either.cs:246-274 | a null action throws ArgumentNullException("right"); otherwise the action runs exactly for a Right |
| LegacyEither.DoLeft | Monads/Either/Either.cs:276-304 | a null action throws ArgumentNullException("left"); otherwise the action runs exactly for a Left |
| LegacyEither.Select | Monads/Either/Either.cs:313-319 | with a non-null delegate it is Map; a null delegate throws NullReferenceException exactly for a Right; a Left or Bottom comes back unchanged whatever the delegate |
| LegacyEither.SelectMany | Monads/Either/Either.cs:321-324 | Left and Bottom come back unchanged; on a Right a null `bind` throws NullReferenceException, a bound Left or Bottom is the result, and a bound Right gives FromRight of the projection, or NullReferenceException for a null `project`; with non-null delegates it is a Bind of `bind` followed by a Bind to FromRight |
| LegacyEither.Where | Monads/Either/Either.cs:326-336 | the result is Right exactly for a Right whose payload passes, which is kept unchanged; everything else becomes Bottom |
| LegacyEither.ModernIsInjective | Monads/Either/Either.cs:6-42 | reading Bottom as Neither identifies no two legacy values |
| LegacyEither.AgreesWithCurrent | Monads/Either/Either.cs:176-336 | under that reading, Map, Bind and Where agree with the current generation's, including when Where throws |
| LegacyEither.RightOrDefaultOfFromRight | Monads.Test/Either_Tests.cs:50-94 | reading back a FromRight returns the payload, or the fallback for null; LeftOrDefault of it always falls back |
| LegacyEither.LeftOrDefaultOfFromLeft | Monads.Test/Either_Tests.cs:96-141 | reading back a FromLeft returns the payload, or the fallback for null; RightOrDefault of it always falls back |
| LegacyEither.MatchRebuilds | Monads/Either/Either.cs:102-174 | matching with the constructors and no `bottom` callback gives back the same value, Bottom included |
| LegacyEither.MatchBottomIsDefault | Monads/Either/Either.cs:102-174 | a Bottom matched without a `bottom` callback gives the default result |
| LegacyEither.MapIdentity | Monads/Either/Either.cs:176-188 | mapping by the identity changes no value |
| LegacyEither.MapComposition | Monads/Either/Either.cs:176-188 | mapping by f and then g is mapping once by their null-propagating composition |
| LegacyEither.MapLeftMirrorsMap | Monads/Either/Either.cs:190-202 | MapLeft is Map with the two arms exchanged before and after, including the argument check |
| LegacyEither.BindIdentities | Monads/Either/Either.cs:218-244 | binding a freshly built Right applies the function; binding the Right constructor changes no value |
| LegacyEither.BindAssociative | Monads/Either/Either.cs:218-244 | binding f and then g is binding once by "f, then bind g" |
| LegacyEither.WhereConjunction | Monads/Either/Either.cs:326-336 | filtering by p and then q is filtering once by p and q; Left and Bottom give Bottom |
| LegacyEither.EffectsCoverEachStateOnce | Monads/Either/Either.cs:246-304 | DoLeft followed by DoRight invokes at most one action, the one Match selects, and none for Bottom |
| LegacyEither.FromRightOrFallsBack | Monads.Test/Either_Tests.cs:194-218 | an awaited null with a fallback left is that Left: LeftOrDefault gives the fallback left back and RightOrDefault falls back (the test uses null and 3) |
| LegacyOption.From | Monads/Option/Option.cs:11-33 | the constructor gives Some exactly for a non-null value, and that Some holds the value |
| LegacyOption.SomeOrDefault | Monads/Option/Option.cs:86-91 | the payload of a Some, the fallback for None |
| LegacyOption.IfSome | Monads/Option/Option.cs:41-69 | a null action throws ArgumentNullException("some"); otherwise the action runs exactly for a Some |
| LegacyOption.IfNone | Monads/Option/Option.cs:71-84 | a null action throws ArgumentNullException("none"); otherwise the action runs exactly for None |
| LegacyOption.Match | Monads/Option/Option.cs:93-142 | a null `none` is reported first, then a null `some`; with both present the callback of the current state is applied |
| LegacyOption.Map | Monads/Option/Option.cs:144-166 | a null function throws in every state; the result is Some exactly for a Some whose mapped value is non-null, and holds that value |
| LegacyOption.Bind | Monads/Option/Option.cs:168-190 | a null function throws in every state; a Some becomes what the function returns and None stays None |
| LegacyOption.ToEither | Monads/Option/Option.cs:192-197 | Right exactly for a Some, with its payload; None gives FromLeft of the fallback |
| LegacyOption.ToLeftEither | Monads/Option/Option.cs:199-204 | ToLeftEither() is ToLeftEither with the Unit value as the right fallback |
| LegacyOption.ToLeftEitherWith | Monads/Option/Option.cs:206-211 | Left exactly for a Some, with its payload; None gives FromRight of the fallback |
| LegacyOption.Select | Monads/Option/Option.cs:213-218 | with a non-null delegate it is Map; a null delegate throws NullReferenceException exactly for a Some; None gives None whatever the delegate |
| LegacyOption.SelectMany | Monads/Option/Option.cs:220-242 | None stays None; on a Some a null `bind` throws NullReferenceException and a bound None gives None; on a bound Some a null `project` throws NullReferenceException, a null projection result throws InvalidOperationException, and otherwise the result is Some of the projection |
| LegacyOption.Where | Monads/Option/Option.cs:244-249 | a Some is kept exactly when its payload passes, and otherwise becomes None; the predicate is invoked only for a Some |
| LegacyOption.FromAgreesWithCurrent | Monads/Option/Option.cs:11-33 | the legacy constructor builds the same value as the current Maybe constructor |
| LegacyOption.AgreesWithCurrent | Monads/Option/Option.cs:144-249 | Map, Bind, Where and SelectMany agree with the current Maybe's, including whether they throw |
| LegacyOption.SomeOrDefaultOfFrom | Monads/Option/Option.cs:86-91 | reading back a constructed Option returns the value, or the fallback for null |
| LegacyOption.EffectsCoverEachStateOnce | Monads/Option/Option.cs:41-84 | IfSome followed by IfNone invokes exactly one action, the one Match selects |
| LegacyOption.MatchRebuilds | Monads/Option/Option.cs:93-142 | matching with the constructors gives back the same value |
| LegacyOption.MapIdentity | Monads/Option/Option.cs:144-166 | mapping by the identity changes no value |
| LegacyOption.MapComposition | Monads/Option/Option.cs:144-166 | mapping by f and then g is mapping once by their null-propagating composition |
| LegacyOption.BindIdentities | Monads/Option/Option.cs:168-190 | binding a Some applies the function; binding the Some constructor changes no value |
| LegacyOption.BindAssociative | Monads/Option/Option.cs:168-190 | binding f and then g is binding once by "f, then bind g" |
| LegacyOption.WhereConjunction | Monads/Option/Option.cs:244-249 | filtering by p and then q is filtering once by p and q; Where is idempotent |
| LegacyOption.ToLeftEitherMirrorsToEither | Monads/Option/Option.cs:192-211 | ToLeftEither is ToEither with the two arms exchanged |
| LegacyEitherAsync.MapAsync | Monads/Either/EitherAsyncExtensions.cs:38-43 | with a non-null function it is Bind; a null one throws NullReferenceException exactly for a Right |
| LegacyEitherAsync.BindAsync | Monads/Either/EitherAsyncExtensions.cs:45-52 | it is the task MapAsync, and so Bind for a non-null function |
| LegacyEitherAsync.ToOptionTask | Monads/Either/EitherAsyncExtensions.cs:54-59 | Some exactly for a Right, holding the Right payload |
| LegacyEitherAsync.Select | Monads/Either/EitherAsyncExtensions.cs:61-66 | it is the synchronous Select |
| LegacyEitherAsync.SelectMany | Monads/Either/EitherAsyncExtensions.cs:68-76 | it is the synchronous SelectMany |
| LegacyEitherAsync.Where | Monads/Either/EitherAsyncExtensions.cs:78-88 | as written: it throws NullReferenceException exactly for a Right with a null predicate, and otherwise the result is Right exactly when the input is Right |
| LegacyEitherAsync.WhereIntended | Monads/Either/EitherAsyncExtensions.cs:78-88 | the corrected task Where is the synchronous Where |
| LegacyEitherAsync.WhereIgnoresPredicate | Monads/Either/EitherAsyncExtensions.cs:78-88 | the task Where keeps every Right, so it differs from the synchronous Where on each Right the predicate rejects |
| LegacyEitherAsync.WhereAgreesOffRight | Monads/Either/EitherAsyncExtensions.cs:78-88 | on Left and Bottom the task Where and the synchronous Where both give Bottom |
| LegacyEitherAsync.BindAsyncChecksLazily | Monads/Either/EitherAsyncExtensions.cs:45-52 | with a null function, Bind throws on a Left, but BindAsync lets the Left through and fails only on a Right |
| LegacyEitherAsync.ToOptionOfToEither | Monads/Either/EitherAsyncExtensions.cs:54-59 | converting an Option to an Either and back gives the Option, whatever the left fallback |
| LegacyOptionAsync.BindAsync | Monads/Option/OptionAsyncExtensions.cs:32-37 | with a non-null function it is Bind; a null one throws NullReferenceException exactly for a Some |
| LegacyOptionAsync.ToEitherAsync | Monads/Option/OptionAsyncExtensions.cs:39-44 | it is the synchronous ToEither |
| LegacyOptionAsync.Select | Monads/Option/OptionAsyncExtensions.cs:46-51 | it is the synchronous Select |
| LegacyOptionAsync.SelectMany | Monads/Option/OptionAsyncExtensions.cs:53-72 | as written: a Some whose `bind` gives None yields Some(default) when the default result is not null; in every other case, throws included, it is the synchronous SelectMany |
| LegacyOptionAsync.SelectManyIntended | Monads/Option/OptionAsyncExtensions.cs:53-72 | the corrected task SelectMany is the synchronous SelectMany |
| LegacyOptionAsync.Where | Monads/Option/OptionAsyncExtensions.cs:74-84 | it is the synchronous Where |
| LegacyOptionAsync.SelectManyLeaksDefault | Monads/Option/OptionAsyncExtensions.cs:53-72 | for any value whose `bind` gives None and any non-null default, the task SelectMany gives Some(default) where the synchronous one gives None (for `int`, Some(0)) |
| LegacyOptionAsync.SelectManyAgreesWhenBound | Monads/Option/OptionAsyncExtensions.cs:53-72 | whenever `bind` gives a Some, the as-written task SelectMany agrees with the synchronous one |
| LegacyOptionAsync.BindAsyncChecksLazily | Monads/Option/OptionAsyncExtensions.cs:32-37 | with a null function, Bind throws on None but BindAsync gives None |

## Left out

- Tasks are modelled as their awaited results. Scheduling, cancellation and faulted tasks are not modelled.
- Exceptions thrown by user callbacks are not modelled. Callbacks are pure functions; their side effects are not modelled beyond the list of callbacks an effect member invoked.
- The instance `*Async` overloads are modelled by their synchronous members; only the parameter name they report differs:
  - current generation: `DoRightAsync` and `DoLeftOrNeitherAsync` name `function`; Maybe's `IfSomeAsync`, `MatchAsync`, `MapAsync` and `BindAsync` name `someAsync`, `noneAsync`, `mapAsync` and `bindAsync`;
  - older generation: the overloads name `mapAsync`, `bindAsync`, `rightAsync`, `leftAsync`, `someAsync` and `noneAsync`.
- The task extensions `MatchAsync`, `DoRightAsync` and `IfSomeAsync` only await the task and call the instance member, so they are modelled by that member.
- EasyEitherEnumerable: enumeration is eager; the laziness of `IEnumerable` and re-enumeration are not modelled.
- `Equals`, `GetHashCode` and the equality operators are taken to be structural equality of the datatypes. Hash codes are not modelled.
- The implicit conversions are modelled by the constructors they call. Overload ambiguity when `TLeft` and `TRight` are the same type is a compile-time matter and is not modelled.
- The `NotImplementedException` arms of `switch` statements over the state enum cannot be reached, because every state is handled.
- `Core.None` (EasyMonads/Maybe/Core.cs:7, 40-43) is a marker whose implicit conversion to Maybe is not part of this model. None is written directly.
- The legacy `Either.ToMaybe` (Monads/Either/Either.cs:306-311) produces a Maybe type whose definition is not part of this model.
- `TaskExtensions.AsTask` (EasyMonads/Common/TaskExtensions.cs) wraps a value in a completed task, which is the value itself here.
- EasyEitherEnumerable.SelectMany: a throw is only shown to need some Right element; which element throws first is stated by Enumerate, not repeated here.
- EasyEither.MapLeft and EasyEither.BindLeft: their per-state results are stated through MapLeftMirrorsMap and BindLeftMirrorsBind rather than in their own contracts.

## Findings

| source | as written | input that shows it | evidently intended | confidence | as-written member | corrected member |
|---|---|---|---|---|---|---|
| EasyMonads/Either/EitherAsyncExtensions.cs:124-132 | the Right branch returns `right` when the predicate holds and `FromRight(right)` when it fails, which is the same Right | a task of Right(r) with a predicate that rejects r gives Right(r) | a rejected Right becomes Neither, as in the synchronous Where | high, not executed | EasyEitherAsync.WhereIgnoresPredicate | EasyEitherAsync.WhereIntended |
| Monads/Either/EitherAsyncExtensions.cs:78-88 | the Right branch returns `right` or `FromRight(right)`, both the same Right | a task of Right(r) with a predicate that rejects r gives Right(r) | a rejected Right becomes Bottom, as in the synchronous Where | high, not executed | LegacyEitherAsync.WhereIgnoresPredicate | LegacyEitherAsync.WhereIntended |
| EasyMonads/Maybe/MaybeAsyncExtensions.cs:60-79 | the inner `Match(() => default, …)` is typed by the projection's result, so a None from `bind` yields `default(TResult)`, which the conversion turns into a Maybe | `from x in Task(Some(1)) from y in None select x + y` over `int` gives Some(0) | None, as in the synchronous SelectMany | medium, not executed | EasyMaybeAsync.SelectManyLeaksDefault | EasyMaybeAsync.SelectManyIntended |
| Monads/Option/OptionAsyncExtensions.cs:53-72 | the same inner `Match(() => default, …)` | the same query over a task of `Option<int>` gives Some(0) | None, as in the synchronous SelectMany | medium, not executed | LegacyOptionAsync.SelectManyLeaksDefault | LegacyOptionAsync.SelectManyIntended |
