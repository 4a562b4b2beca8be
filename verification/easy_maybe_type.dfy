/**
 The optional type of the current generation, `EasyMonads.Maybe<TValue>`, and
 the one construction rule every path into it goes through: a null value gives
 None. The combinators over it are in EasyMaybe; the type lives on its own
 because Either's `ToMaybe` and Maybe's `ToEither` refer to each other's type.
 */
module EasyMaybeType {
  import opened Base

  /** Two states: Some holds a non-null value, None holds nothing. `default(Maybe)`
      and `Maybe.None` are the None constructor. */
  datatype Maybe<T> = None | Some(value: T)

  /** The public constructor `new Maybe(value)`, which `From`, `FromNullable`, their
      awaited `FromAsync` forms and the implicit conversion from a value all call. */
  function From<T>(value: Nullable<T>): (m: Maybe<T>)
    ensures m.Some? <==> value.NonNull?
    ensures m.Some? ==> value == NonNull(m.value)
  {
    match value
    case Null => None
    case NonNull(v) => Some(v)
  }

  /** Reading the payload back: a Maybe built from a value gives that value back,
      and only None is built from null. */
  lemma FromIsInjective<T>(a: Nullable<T>, b: Nullable<T>)
    ensures From(a) == From(b) <==> a == b
  {
  }
}
