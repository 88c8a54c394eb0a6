/** Integers extended with the two infinities that the search uses as the
    initial `max_eval`/`min_eval` and as the root alpha-beta window
    (`-float('inf')` and `float('inf')`). No other floating-point value
    ever occurs, so nothing else of float arithmetic is modelled. */
module ExtendedInt {

  datatype ExtInt = NegInf | Fin(value: int) | PosInf {

    /** The order of Python's comparison between ints and infinities. */
    predicate Le(that: ExtInt) {
      match (this, that)
      case (NegInf, _) => true
      case (_, PosInf) => true
      case (Fin(a), Fin(b)) => a <= b
      case _ => false
    }

    predicate Lt(that: ExtInt) {
      !that.Le(this)
    }

    /** Python's `max(this, that)`. */
    function Max(that: ExtInt): (r: ExtInt)
      ensures this.Le(r) && that.Le(r)
      ensures r == this || r == that
    {
      if this.Lt(that) then that else this
    }

    /** Python's `min(this, that)`. */
    function Min(that: ExtInt): (r: ExtInt)
      ensures r.Le(this) && r.Le(that)
      ensures r == this || r == that
    {
      if that.Lt(this) then that else this
    }

    /** Unary minus; negating an infinity gives the other one. */
    function Neg(): (r: ExtInt)
      ensures Fin? <==> r.Fin?
      ensures Fin? ==> r.value == -value
    {
      match this
      case NegInf => PosInf
      case Fin(a) => Fin(-a)
      case PosInf => NegInf
    }
  }

  /** `Le` is a total order. */
  lemma LeTotalOrder(a: ExtInt, b: ExtInt, c: ExtInt)
    ensures a.Le(a)
    ensures a.Le(b) || b.Le(a)
    ensures a.Le(b) && b.Le(a) ==> a == b
    ensures a.Le(b) && b.Le(c) ==> a.Le(c)
  {
  }

  /** Negation is an involution and reverses the order. */
  lemma NegReversesOrder(a: ExtInt, b: ExtInt)
    ensures a.Neg().Neg() == a
    ensures a.Le(b) <==> b.Neg().Le(a.Neg())
  {
  }
}
