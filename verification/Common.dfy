/** What several modules use. */
module Common {
  datatype Option<+T> = None | Some(value: T)

  /** The numbers [low, low + num). */
  function Range(low: nat, num: int): (numbers: set<nat>)
    ensures forall x :: x in numbers <==> low <= x < low + num
  {
    if num <= 0 then {} else Range(low, num - 1) + {low + num - 1}
  }
}
