/** The optional value used for "not found" answers. */
module Optional {

  datatype Option<+T> = None | Some(value: T)

  /** Moves a found index `n` places to the right. */
  function Shift(o: Option<nat>, n: nat): (r: Option<nat>)
    ensures r.None? <==> o.None?
    ensures r.Some? ==> r.value == o.value + n
  {
    match o
    case None => None
    case Some(i) => Some(i + n)
  }

  lemma ShiftShift(o: Option<nat>, m: nat, n: nat)
    ensures Shift(Shift(o, m), n) == Shift(o, m + n)
  {
  }
}
