/** Search values: a real number or one of the two infinities that the
    search uses as starting values for its running maximum and minimum. */
module ExtendedReal {

  datatype ExtReal = NegInf | Fin(value: real) | PosInf

  /** Strict comparison of such values; an infinity is not less than itself. */
  predicate Less(a: ExtReal, b: ExtReal) {
    match a
    case NegInf => !b.NegInf?
    case Fin(x) => b.PosInf? || (b.Fin? && x < b.value)
    case PosInf => false
  }

  predicate Le(a: ExtReal, b: ExtReal) {
    !Less(b, a)
  }

  /** `Le` is a total order, so the running maximum and minimum are well defined. */
  lemma LeIsTotalOrder(a: ExtReal, b: ExtReal, c: ExtReal)
    ensures Le(a, a)
    ensures Le(a, b) || Le(b, a)
    ensures Le(a, b) && Le(b, a) ==> a == b
    ensures Le(a, b) && Le(b, c) ==> Le(a, c)
    ensures Less(a, b) <==> Le(a, b) && a != b
  {
  }

  /** The running maximum `if maxval < v then maxval := v`, started at -infinity:
      it bounds every element and is one of them (or -infinity for no elements). */
  function MaxOf(xs: seq<ExtReal>): (m: ExtReal)
    ensures forall i :: 0 <= i < |xs| ==> Le(xs[i], m)
    ensures xs == [] ==> m == NegInf
    ensures xs != [] ==> m in xs
  {
    if xs == [] then NegInf
    else
      var m := MaxOf(xs[..|xs| - 1]);
      if Less(m, xs[|xs| - 1]) then xs[|xs| - 1] else m
  }

  /** The running minimum `if minval > v then minval := v`, started at +infinity:
      it is below every element and is one of them (or +infinity for no elements). */
  function MinOf(xs: seq<ExtReal>): (m: ExtReal)
    ensures forall i :: 0 <= i < |xs| ==> Le(m, xs[i])
    ensures xs == [] ==> m == PosInf
    ensures xs != [] ==> m in xs
  {
    if xs == [] then PosInf
    else
      var m := MinOf(xs[..|xs| - 1]);
      if Less(xs[|xs| - 1], m) then xs[|xs| - 1] else m
  }

  /** One more step of the running maximum. */
  lemma MaxOfAppend(xs: seq<ExtReal>, x: ExtReal)
    ensures MaxOf(xs + [x]) == if Less(MaxOf(xs), x) then x else MaxOf(xs)
  {
    assert (xs + [x])[..|xs|] == xs;
  }

  /** One more step of the running minimum. */
  lemma MinOfAppend(xs: seq<ExtReal>, x: ExtReal)
    ensures MinOf(xs + [x]) == if Less(x, MinOf(xs)) then x else MinOf(xs)
  {
    assert (xs + [x])[..|xs|] == xs;
  }

  /** A maximum is characterised by its two properties: bound and membership. */
  lemma MaxOfUnique(xs: seq<ExtReal>, m: ExtReal)
    requires xs != [] && m in xs
    requires forall i :: 0 <= i < |xs| ==> Le(xs[i], m)
    ensures m == MaxOf(xs)
  {
    var k :| 0 <= k < |xs| && xs[k] == MaxOf(xs);
  }

  /** A minimum is characterised by its two properties: bound and membership. */
  lemma MinOfUnique(xs: seq<ExtReal>, m: ExtReal)
    requires xs != [] && m in xs
    requires forall i :: 0 <= i < |xs| ==> Le(m, xs[i])
    ensures m == MinOf(xs)
  {
    var k :| 0 <= k < |xs| && xs[k] == MinOf(xs);
  }
}
