/** Distance labels. The search keeps a float matrix initialised to `np.inf`;
    here a label is either unreached (`Inf`) or a finite step count. */
module Score {

  datatype Label = Inf | Fin(d: nat)

  /** `a < b` on labels: `inf` is above every finite value and not below itself. */
  predicate Less(a: Label, b: Label)
  {
    match (a, b)
    case (Fin(x), Fin(y)) => x < y
    case (Fin(_), Inf) => true
    case (Inf, _) => false
  }

  /** `min(a, b)`: one of the two, and not above either. */
  function Min(a: Label, b: Label): (r: Label)
    ensures r == a || r == b
    ensures !Less(a, r) && !Less(b, r)
  {
    if Less(b, a) then b else a
  }

  /** Float `<` on whole numbers and `inf` is a strict total order with `inf`
      on top. */
  lemma LessIsOrder(a: Label, b: Label, c: Label)
    ensures !Less(a, a)
    ensures Less(a, b) && Less(b, c) ==> Less(a, c)
    ensures a != b ==> (Less(a, b) <==> !Less(b, a))
    ensures !Less(Inf, a) && (a.Fin? <==> Less(a, Inf))
  {
  }

  /** `x + 1`, with `inf + 1 == inf`. */
  function Succ(a: Label): (r: Label)
    ensures a.Fin? <==> r.Fin?
    ensures a.Fin? ==> Less(a, r)
  {
    match a
    case Inf => Inf
    case Fin(x) => Fin(x + 1)
  }
}
