/** Arrays as property tables: an index without an entry is a hole. */
module SparseArray {

  /** A property value, `undefined` set apart. */
  datatype Elem<+V> = Undefined | Value(v: V)

  /** What is found at an index. */
  datatype Slot<+V> = Hole | Present(e: Elem<V>)

  function At<V>(props: map<int, Elem<V>>, i: int): Slot<V> {
    if i in props then Present(props[i]) else Hole
  }

  /** Elements and holes of indices 0 up to `n`. */
  function Slots<V>(props: map<int, Elem<V>>, n: nat): (s: seq<Slot<V>>)
    ensures |s| == n && forall i :: 0 <= i < n ==> s[i] == At(props, i)
  {
    seq(n, i => At(props, i))
  }

  class Array<V> {
    var props: map<int, Elem<V>>
    var length: nat

    constructor ()
      ensures props == map[] && length == 0
    {
      props, length := map[], 0;
    }

    method GetProp(i: int) returns (have: bool, e: Elem<V>)
      ensures At(props, i) == if have then Present(e) else Hole
      ensures !have ==> e == Undefined
    {
      if i in props {
        return true, props[i];
      }
      return false, Undefined;
    }

    method PutProp(i: int, e: Elem<V>)
      modifies this`props
      ensures props == old(props)[i := e]
      ensures forall k :: At(props, k) == if k == i then Present(e) else old(At(props, k))
    {
      props := props[i := e];
    }

    method DelProp(i: int)
      modifies this`props
      ensures props == old(props) - {i}
      ensures forall k :: At(props, k) == if k == i then Hole else old(At(props, k))
    {
      props := props - {i};
    }
  }
}
