/** What several of the models use. */
module Basics {
  datatype Option<+T> = Nothing | Some(value: T)

  function Abs(v: int): nat {
    if v < 0 then -v else v
  }

  lemma {:induction false} NotNegative(a: int, b: int)
    requires a >= 0 && b >= 0
    ensures a * b >= 0
  {
  }
}
