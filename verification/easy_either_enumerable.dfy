/**
 The query bindings of EasyMonads/Either/EitherEnumerableExtensions.cs, which lift
 Select and SelectMany from one Either to a sequence of them. The sequence is
 modelled as fully enumerated (as by `ToList()`): the result is every projected
 element in order, or the first exception a projection raises.
 */
module EasyEitherEnumerable {
  import opened Base
  import E = EasyEither

  /** Enumerating `xs.Select(selector)` to the end. */
  function Enumerate<A, B>(xs: seq<A>, selector: A -> Outcome<B>): (result: Outcome<seq<B>>)
    ensures result.Ok? <==> forall i :: 0 <= i < |xs| ==> selector(xs[i]).Ok?
    ensures result.Ok? ==> |result.value| == |xs|
    ensures result.Ok? ==> forall i :: 0 <= i < |xs| ==> selector(xs[i]) == Ok(result.value[i])
    ensures result.Thrown? ==> exists k :: 0 <= k < |xs| && selector(xs[k]) == Thrown(result.error)
                                           && forall i :: 0 <= i < k ==> selector(xs[i]).Ok?
    decreases |xs|
  {
    if |xs| == 0 then Ok([])
    else
      var head :- selector(xs[0]);
      var tail :- Enumerate(xs[1..], selector);
      Ok([head] + tail)
  }

  /** `Select(map)` over a sequence: each element is mapped with EasyEither.Map. The
      argument check runs per element, so a null `map` throws only if there is one. */
  function Select<L, R, B>(xs: seq<E.Either<L, R>>, mapping: Nullable<R -> Nullable<B>>): (result: Outcome<seq<E.Either<L, B>>>)
    ensures mapping.Null? ==> (result.Ok? <==> |xs| == 0)
    ensures mapping.Null? && result.Thrown? ==> result.error == ArgumentNull("function")
    ensures mapping.NonNull? ==> result.Ok?
    ensures result.Ok? ==> |result.value| == |xs|
    ensures result.Ok? ==> forall i :: 0 <= i < |xs| ==> E.Map(xs[i], mapping) == Ok(result.value[i])
  {
    Enumerate(xs, (e: E.Either<L, R>) => E.Map(e, mapping))
  }

  /** `SelectMany(bind, project)` over a sequence: each element goes through the
      single-value SelectMany. */
  function SelectMany<L, R, I, B>(xs: seq<E.Either<L, R>>, bind: Nullable<R -> E.Either<L, I>>, project: Nullable<(R, I) -> Nullable<B>>)
    : (result: Outcome<seq<E.Either<L, B>>>)
    ensures bind.NonNull? && project.NonNull? ==> result.Ok?
    ensures result.Ok? ==> |result.value| == |xs|
    ensures result.Ok? ==> forall i :: 0 <= i < |xs| ==> E.SelectMany(xs[i], bind, project) == Ok(result.value[i])
    ensures result.Thrown? ==> result.error == NullReference && exists k :: 0 <= k < |xs| && xs[k].Right?
  {
    Enumerate(xs, (e: E.Either<L, R>) => E.SelectMany(e, bind, project))
  }

  /***** Laws *****/

  /** Enumerating a concatenation: the first part's exception wins, then the second's;
      otherwise the results are concatenated. */
  lemma {:induction false} EnumerateAppend<A, B>(xs: seq<A>, ys: seq<A>, selector: A -> Outcome<B>)
    ensures Enumerate(xs + ys, selector) ==
              match Enumerate(xs, selector)
              case Thrown(err) => Thrown(err)
              case Ok(front) =>
                match Enumerate(ys, selector)
                case Thrown(err) => Thrown(err)
                case Ok(back) => Ok(front + back)
    decreases |xs|
  {
    if |xs| == 0 {
      assert xs + ys == ys;
      if Enumerate(ys, selector).Ok? {
        assert [] + Enumerate(ys, selector).value == Enumerate(ys, selector).value;
      }
    } else {
      assert (xs + ys)[1..] == xs[1..] + ys;
      EnumerateAppend(xs[1..], ys, selector);
      var head := selector(xs[0]);
      if head.Ok? && Enumerate(xs[1..], selector).Ok? && Enumerate(ys, selector).Ok? {
        var front := Enumerate(xs[1..], selector).value;
        var back := Enumerate(ys, selector).value;
        assert [head.value] + (front + back) == ([head.value] + front) + back;
      }
    }
  }

  /** Left and Neither elements come out of Select in place and unchanged; a Right
      comes out as the mapped value, or Neither when the mapping gives null. */
  lemma SelectPreservesNonRight<L, R, B>(xs: seq<E.Either<L, R>>, f: R -> Nullable<B>, i: nat)
    requires i < |xs|
    ensures xs[i].Left? ==> Select(xs, NonNull(f)).value[i] == E.Left(xs[i].left)
    ensures xs[i].Neither? ==> Select(xs, NonNull(f)).value[i] == E.Neither
    ensures xs[i].Right? ==> Select(xs, NonNull(f)).value[i] == E.FromRight(f(xs[i].right))
  {
  }

  /** Selecting twice is selecting once by the null-propagating composition. */
  lemma {:induction false} SelectComposition<L, R, B, C>(xs: seq<E.Either<L, R>>, f: R -> Nullable<B>, g: B -> Nullable<C>)
    ensures Select(Select(xs, NonNull(f)).value, NonNull(g)) == Select(xs, NonNull(Then(f, g)))
  {
    var once := Select(xs, NonNull(f)).value;
    var twice := Select(once, NonNull(g)).value;
    var composed := Select(xs, NonNull(Then(f, g))).value;
    forall i | 0 <= i < |xs|
      ensures twice[i] == composed[i]
    {
      E.MapComposition(xs[i], f, g);
      assert E.Map(xs[i], NonNull(f)) == Ok(once[i]);
      assert E.Map(once[i], NonNull(g)) == Ok(twice[i]);
    }
    assert twice == composed;
  }

  /** `from number in [0, 1, 2] from text in ConvertToString(number) select text`: with
      every number bound to a Right text, the query gives those Rights in order. */
  lemma SelectManyScenario(convert: int -> E.Either<Unit, string>, project: (int, string) -> Nullable<string>)
    requires forall n :: convert(n).Right?
    requires forall n, text :: project(n, text) == NonNull(text)
    ensures SelectMany([E.Right(0), E.Right(1), E.Right(2)], NonNull(convert), NonNull(project))
         == Ok([convert(0), convert(1), convert(2)])
  {
    var xs: seq<E.Either<Unit, int>> := [E.Right(0), E.Right(1), E.Right(2)];
    var result := SelectMany(xs, NonNull(convert), NonNull(project));
    assert result.Ok? && |result.value| == 3;
    assert E.SelectMany(xs[0], NonNull(convert), NonNull(project)) == Ok(convert(0)) == Ok(result.value[0]);
    assert E.SelectMany(xs[1], NonNull(convert), NonNull(project)) == Ok(convert(1)) == Ok(result.value[1]);
    assert E.SelectMany(xs[2], NonNull(convert), NonNull(project)) == Ok(convert(2)) == Ok(result.value[2]);
    assert result.value == [convert(0), convert(1), convert(2)];
  }
}
