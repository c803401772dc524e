/** Shared vocabulary: optional values, the outcome of one HTTP request as the
    caller observes it, the abstract numeric operations, and first-success search. */
module Common {

  datatype Option<T> = None | Some(value: T)

  /** One HTTP request: either it failed (transport error, timeout, 4xx/5xx status,
      undecodable JSON) or it answered with a decoded body. */
  datatype Reply<T> = Failed | Answered(body: T)

  predicate IsAnswer<T>(r: Reply<T>) { r.Answered? }

  /** Python's `float(text)` and `round(x, digits)`, left abstract: the model never
      computes with them, it only records which text was parsed and which value was
      rounded to how many places. */
  datatype Numerics = Numerics(parseFloat: string -> Option<real>, round: (real, nat) -> real)

  /** The first attempt number `a` in `[from, limit)` whose reply is accepted. */
  function FirstAccepted<T>(get: nat -> T, accept: T -> bool, from: nat, limit: nat): (r: Option<nat>)
    decreases limit - from
    ensures r.Some? ==> from <= r.value < limit && accept(get(r.value))
    ensures r.Some? ==> forall a :: from <= a < r.value ==> !accept(get(a))
    ensures r.None? ==> forall a :: from <= a < limit ==> !accept(get(a))
  {
    if from >= limit then None
    else if accept(get(from)) then Some(from)
    else FirstAccepted(get, accept, from + 1, limit)
  }

  /** The optional value as a list of zero or one elements. */
  function Listed<T>(o: Option<T>): (r: seq<T>)
    ensures o.Some? ==> r == [o.value]
    ensures o.None? ==> r == []
  {
    if o.Some? then [o.value] else []
  }

  function Min(a: int, b: int): int { if a <= b then a else b }
}
