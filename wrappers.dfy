/** Small value types shared by the whole model: an optional value and the
    extended integers the gallery sort keys live in (JavaScript keys default
    to +Infinity when a number is missing). */
module Wrappers {

  datatype Option<+T> = None | Some(value: T)

  /** A sort key: a finite integer or +Infinity. */
  datatype ExtInt = Fin(n: int) | Inf

  /** Strict order on extended integers: +Infinity is above every finite key
      and not below itself. */
  predicate ExtLess(a: ExtInt, b: ExtInt)
  {
    match (a, b)
    case (Fin(x), Fin(y)) => x < y
    case (Fin(_), Inf) => true
    case (Inf, _) => false
  }

  predicate ExtLessEq(a: ExtInt, b: ExtInt)
  {
    a == b || ExtLess(a, b)
  }

  /** ExtLess is a strict total order; Infinity is the top element. */
  lemma ExtLessOrder(a: ExtInt, b: ExtInt, c: ExtInt)
    ensures !ExtLess(a, a)
    ensures a != b ==> (ExtLess(a, b) <==> !ExtLess(b, a))
    ensures ExtLess(a, b) && ExtLess(b, c) ==> ExtLess(a, c)
    ensures a.Fin? ==> ExtLess(a, Inf)
    ensures !ExtLess(Inf, a)
  {
  }
}
