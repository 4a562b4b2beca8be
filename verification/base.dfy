/**
 Shared vocabulary for the models of both generations of the library: nullable
 values and delegates, the Unit value, the exceptions the library itself raises,
 and a failure-compatible result that holds either a value or a thrown exception.

 Conventions used by every other module:
 - a C# value, reference or delegate that may be null is a `Nullable<T>`;
 - a user callback is a pure function `A -> B` behind a `Nullable`, so that a
   null delegate can be passed; what a callback does besides returning is not
   modelled, except that effect members record which callback they invoked;
 - an awaited `Task<T>` is its result `T`.
 */
module Base {

  /** The library's `Unit` type; `Unit.Default` is its only value. */
  datatype Unit = Default

  /** A value of a C# type that admits null. */
  datatype Nullable<T> = Null | NonNull(value: T)

  /** The exceptions raised by the library's own code. */
  datatype Exception =
    | ArgumentNull(param: string)  // ArgumentNullException, carrying nameof(the null parameter)
    | InvalidOperation             // InvalidOperationException
    | NullReference                // NullReferenceException: a null delegate was invoked

  /** The result of a member that may throw. */
  datatype Outcome<T> = Ok(value: T) | Thrown(error: Exception) {

    predicate IsFailure() {
      Thrown?
    }

    function PropagateFailure<U>(): Outcome<U>
      requires Thrown?
    {
      Thrown(error)
    }

    function Extract(): T
      requires Ok?
    {
      value
    }
  }

  /** An `Action` delegate. Only its nullness matters to the library; the calls it
      receives are recorded in a `Run`. */
  type Action = Nullable<Unit>

  /** The value an effect member returns, with the callbacks it invoked, in order. */
  datatype Run<T, C> = Run(result: T, calls: seq<C>)

  /** The argument check that validating members perform before anything else:
      a null delegate raises ArgumentNullException naming the parameter. */
  function Validate<F>(f: Nullable<F>, param: string): (c: Outcome<Unit>)
    ensures c.Thrown? <==> f.Null?
    ensures c.Thrown? ==> c.error == ArgumentNull(param)
  {
    if f.Null? then Thrown(ArgumentNull(param)) else Ok(Default)
  }

  /** Invoking a delegate without a null check, as the query members do. */
  function Invoke<A, B>(f: Nullable<A -> B>, a: A): (r: Outcome<B>)
    ensures r.Ok? <==> f.NonNull?
    ensures r.Ok? ==> r.value == f.value(a)
    ensures r.Thrown? ==> r.error == NullReference
  {
    match f
    case Null => Thrown(NullReference)
    case NonNull(g) => Ok(g(a))
  }

  /** Invoking a two-argument delegate (a query projection) without a null check. */
  function Invoke2<A, B, C>(f: Nullable<(A, B) -> C>, a: A, b: B): (r: Outcome<C>)
    ensures r.Ok? <==> f.NonNull?
    ensures r.Ok? ==> r.value == f.value(a, b)
    ensures r.Thrown? ==> r.error == NullReference
  {
    match f
    case Null => Thrown(NullReference)
    case NonNull(g) => Ok(g(a, b))
  }

  /** Flattens the outcome of a member whose callbacks may themselves throw: the
      first exception raised is the one that propagates. */
  function Join<T>(o: Outcome<Outcome<T>>): (r: Outcome<T>)
    ensures o.Ok? ==> r == o.value
    ensures o.Thrown? ==> r == Thrown(o.error)
  {
    match o
    case Ok(inner) => inner
    case Thrown(e) => Thrown(e)
  }

  /** Null-propagating composition of two callbacks whose results may be null:
      a null intermediate result short-circuits to null. */
  function Then<A, B, C>(f: A -> Nullable<B>, g: B -> Nullable<C>): (h: A -> Nullable<C>)
  {
    a => match f(a) case Null => Null case NonNull(b) => g(b)
  }
}
