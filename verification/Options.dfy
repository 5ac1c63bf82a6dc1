/** Optional values, and results that may be errors. */
module Options {
  datatype Option<+T> = None | Some(value: T)

  datatype Result<+T, +E> = Ok(value: T) | Err(error: E)

  /** The values of a list, when each is there. */
  function AllSome<T>(os: seq<Option<T>>): Option<seq<T>> {
    if os == [] then Some([])
    else
      match (AllSome(os[..|os| - 1]), os[|os| - 1])
      case (Some(ts), Some(t)) => Some(ts + [t])
      case _ => None
  }

  lemma {:induction false} AllSomeFails<T>(os: seq<Option<T>>, i: nat)
    requires i < |os| && os[i].None?
    ensures AllSome(os) == None
  {
    if i < |os| - 1 {
      AllSomeFails(os[..|os| - 1], i);
    }
  }

  lemma {:induction false} AllSomeHolds<T>(os: seq<Option<T>>)
    requires forall i :: 0 <= i < |os| ==> os[i].Some?
    ensures AllSome(os).Some? && |AllSome(os).value| == |os|
    ensures forall i :: 0 <= i < |os| ==> os[i] == Some(AllSome(os).value[i])
  {
    if os != [] {
      AllSomeHolds(os[..|os| - 1]);
    }
  }
}
