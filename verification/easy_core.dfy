/**
 The static factories of EasyMonads/Maybe/Core.cs: `Core.Maybe(v)`, the strict
 `Core.Some(v)`, and the non-generic `Maybe.FromNullable(v)`.
 */
module EasyCore {
  import opened Base
  import MaybeType = EasyMaybeType

  /** `Core.Maybe(value)`: the collapsing constructor, Some exactly for a non-null value. */
  function Maybe<T>(value: Nullable<T>): (m: MaybeType.Maybe<T>)
    ensures m.Some? <==> value.NonNull?
    ensures m == MaybeType.From(value)
  {
    MaybeType.From(value)
  }

  /** `Core.Some(value)`: for callers that assert presence; null raises
      ArgumentNullException instead of giving None. */
  function Some<T>(value: Nullable<T>): (result: Outcome<MaybeType.Maybe<T>>)
    ensures value.Null? ==> result == Thrown(ArgumentNull("value"))
    ensures value.NonNull? ==> result == Ok(MaybeType.Some(value.value))
  {
    if value.Null? then Thrown(ArgumentNull("value")) else Ok(MaybeType.From(value))
  }

  /** `Maybe.FromNullable(value)`. */
  function FromNullable<T>(value: Nullable<T>): (m: MaybeType.Maybe<T>)
    ensures m.Some? <==> value.NonNull?
  {
    MaybeType.From(value)
  }

  /** The strict and the collapsing factory agree wherever the strict one succeeds,
      and FromNullable is the collapsing factory. */
  lemma FactoriesAgree<T>(value: Nullable<T>)
    ensures Some(value).Ok? ==> Some(value).value == Maybe(value)
    ensures Some(value).Ok? <==> Maybe(value).Some?
    ensures FromNullable(value) == Maybe(value)
  {
  }

  /** Maybe values are equal exactly when both are None or both hold equal payloads
      (`Maybe(42) == Some(42)`, `Maybe(42) != Some(12)`), and Some differs from None. */
  lemma Equality<T>(a: T, b: T)
    ensures Maybe(NonNull(a)) == Some(NonNull(b)).value <==> a == b
    ensures Maybe(NonNull(a)) != MaybeType.None
    ensures Maybe<T>(Null) == MaybeType.None
  {
  }
}
