/** The one optional-value datatype the model needs, used where the program
    works with `None` or with a value that may be missing, and a fact about
    sequences every module uses. */
module Wrappers {
  datatype Option<+T> = None | Some(value: T)

  /** Concatenation regroups freely. */
  lemma {:induction false} AppendAssoc<T>(x: seq<T>, y: seq<T>, z: seq<T>)
    ensures x + y + z == x + (y + z)
  {
    assert |x + y + z| == |x + (y + z)|;
    forall i | 0 <= i < |x + y + z|
      ensures (x + y + z)[i] == (x + (y + z))[i]
    {
      if i < |x| {
      } else if i < |x| + |y| {
      } else {
      }
    }
  }
}
